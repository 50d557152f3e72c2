/** The scheduler over linked task control blocks, each call proved to be its function on the kernel state. */
module Scheduler {
  import opened Arithmetic
  import opened Links
  import opened SchedulerSpec
  import opened WaitLists

  class Task {
    var deadline: nat
    var period: nat
    var arrival: nat
    var wakeup: nat
    var state: TaskState
    var execStart: nat
    var lastExec: nat
    var avgExec: nat
    var maxExec: nat
    var misses: nat
    var switches: nat
    var next: Task?

    /** The task's number; in the proof only. */
    ghost const id: nat

    constructor (ghost id: nat)
      ensures this.id == id && next == null
    {
      deadline, period, arrival, wakeup, state := 0, 0, 0, 0, TaskInit;
      execStart, lastExec, avgExec, maxExec, misses, switches, next := 0, 0, 0, 0, 0, 0, null;
      this.id := id;
    }

    function Rec(): TaskRec
      reads this
    {
      TaskRec(deadline, period, arrival, wakeup, state, execStart, lastExec, avgExec, maxExec, misses, switches)
    }
  }

  /** Tasks numbered by position, each linked to the one before it. */
  ghost predicate KernelList(tasks: seq<Task>)
    reads (set t | t in tasks)`next
  {
    && |tasks| > 0
    && (forall i :: 0 <= i < |tasks| ==> tasks[i].id == i)
    && tasks[0].next == null
    && (forall i, j :: 0 <= i && j == i + 1 && j < |tasks| ==> tasks[j].next == tasks[i])
  }

  lemma LinkedId(tasks: seq<Task>, t: Task)
    requires KernelList(tasks) && t in tasks
    ensures 0 <= t.id < |tasks| && tasks[t.id] == t
  {
  }

  lemma Steps(tasks: seq<Task>, i: nat)
    requires KernelList(tasks) && i < |tasks|
    ensures tasks[i].next == if i == 0 then null else tasks[i - 1]
    ensures forall j :: 0 <= j < |tasks| && j != i ==> tasks[j] != tasks[i]
  {
  }

  /** A new task linked to the last one. */
  lemma LinkedPush(tasks: seq<Task>, task: Task)
    requires KernelList(tasks) && task.id == |tasks| && task.next == tasks[|tasks| - 1]
    ensures KernelList(tasks + [task])
  {
  }

  ghost function Records(tasks: seq<Task>): (r: seq<TaskRec>)
    reads tasks
    ensures |r| == |tasks|
  {
    seq(|tasks|, i requires 0 <= i < |tasks| reads tasks => tasks[i].Rec())
  }

  lemma EachRecord(tasks: seq<Task>)
    ensures forall i :: 0 <= i < |tasks| ==> Records(tasks)[i] == tasks[i].Rec()
  {
  }

  ghost function Number(t: Task?): int {
    if t == null then NONE else t.id
  }

  lemma AccountIs(tasks: seq<Task>, s: KState, current: Task?, best: Task)
    requires KernelList(tasks) && StateOk(s) && |s.tasks| == |tasks| && best in tasks && best != current
    requires s.current == Number(current) && (current != null ==> current in tasks)
    requires forall i :: 0 <= i < |tasks| ==>
      tasks[i].Rec() == (if tasks[i] == best then s.tasks[i].(execStart := s.tick)
                         else if tasks[i] == current then SwitchedOut(s.tasks[i], s.tick) else s.tasks[i])
    ensures 0 <= best.id < |tasks| && Account(s, best.id) == s.(tasks := Records(tasks))
  {
    hide SwitchedOut;
    LinkedId(tasks, best);
    if current != null { LinkedId(tasks, current); }
    var ts := Account(s, best.id).tasks;
    forall i | 0 <= i < |tasks| ensures Records(tasks)[i] == ts[i] {
      assert tasks[i].id == i;
    }
  }

  // ----- loops over the task list -----

  /** The pointers of the tasks, as numbers. */
  ghost function Pointers(tasks: seq<Task>): (r: seq<int>)
    reads tasks
    ensures |r| == |tasks|
  {
    seq(|tasks|, i requires 0 <= i < |tasks| reads tasks => Number(tasks[i].next))
  }

  /** From `head` on, the pointers lead along these tasks. */
  ghost predicate Listed(tasks: seq<Task>, list: seq<nat>, head: Task?)
    reads (set t | t in tasks)`next
  {
    && (forall i :: 0 <= i < |tasks| ==> tasks[i].id == i)
    && InPool(tasks, list) && Distinct(list) && head == At(tasks, null, list, 0)
    && forall i :: 0 <= i < |list| ==> tasks[list[i]].next == At(tasks, null, list, i + 1)
  }

  /** The list of all tasks, as it is created. */
  lemma AllListed(tasks: seq<Task>)
    requires KernelList(tasks)
    ensures Listed(tasks, Down(|tasks|, 0), tasks[|tasks| - 1])
  {
    hide Down;
    forall i | 0 <= i < |tasks| ensures tasks[i].next == if i == 0 then null else tasks[i - 1] {
      Steps(tasks, i);
    }
  }

  lemma PointersCreated(tasks: seq<Task>)
    requires KernelList(tasks)
    ensures Pointers(tasks) == Created(|tasks|)
  {
    forall i | 0 <= i < |tasks| ensures Pointers(tasks)[i] == Created(|tasks|)[i] {
      Steps(tasks, i);
    }
  }

  /** The head of a list, what its task at position `k` points at, and where that task is among the others. */
  lemma ListedAt(tasks: seq<Task>, list: seq<nat>, head: Task?, k: nat)
    requires Listed(tasks, list, head)
    ensures InPool(tasks, list) && head == At(tasks, null, list, 0)
    ensures k < |list| ==>
      && tasks[list[k]].next == At(tasks, null, list, k + 1)
      && list[k] !in list[..k]
      && forall j :: 0 <= j < |tasks| && j != list[k] ==> tasks[j] != tasks[list[k]]
  {
  }

  /** The scan for the earliest deadline. */
  method FindOnList(ghost tasks: seq<Task>, ghost list: seq<nat>, head: Task?, idle: Task) returns (best: Task)
    requires Listed(tasks, list, head) && |tasks| > 0 && idle == tasks[0]
    ensures best in tasks && best.id == PickAlong(Records(tasks), list)
  {
    ghost var ts := Records(tasks);
    var node := head;
    var found: Task? := null;
    var minDeadline := 0xFFFF_FFFF;
    ghost var k := 0;
    while node != null
      invariant k <= |list| && node == At(tasks, null, list, k)
      invariant BestAlong(ts, list, k) == Number(found)
      invariant found != null ==> found in tasks
      invariant minDeadline == if found == null then FOREVER else found.deadline
      decreases |list| - k
    {
      if node.state == Ready {
        if node.deadline < minDeadline {
          minDeadline := node.deadline;
          found := node;
        }
      }
      node := node.next;
      k := k + 1;
    }
    best := if found == null then idle else found;
  }

  /** Readies a task whose arrival or wake-up time has come. */
  method WakeOne(node: Task, osTick: nat) returns (woke: bool)
    modifies node`state
    ensures node.Rec() == Woken(old(node.Rec()), osTick)
    ensures woke == Due(old(node.Rec()), osTick)
  {
    woke := false;
    if node.state == Waiting {
      if osTick >= node.arrival {
        node.state := Ready;
        woke := true;
      }
    } else if node.state == Delayed {
      if osTick >= node.wakeup {
        node.state := Ready;
        woke := true;
      }
    }
  }

  /** Wakes every task of the list that is due, and no other. */
  method WakeOnList(ghost tasks: seq<Task>, ghost list: seq<nat>, head: Task?, osTick: nat) returns (needSched: bool)
    requires Listed(tasks, list, head)
    modifies (set t | t in tasks)`state
    ensures Listed(tasks, list, head)
    ensures Records(tasks) == WakeAlong(old(Records(tasks)), list, osTick)
    ensures needSched == DueAlong(old(Records(tasks)), list, osTick)
  {
    hide Woken, Due, Records, Listed;
    ghost var ts := Records(tasks);
    EachRecord(tasks);
    ListedAt(tasks, list, head, 0);
    var node := head;
    needSched := false;
    ghost var k := 0;
    while node != null
      invariant Listed(tasks, list, head)
      invariant k <= |list| && node == At(tasks, null, list, k)
      invariant forall j :: 0 <= j < |tasks| ==>
        tasks[j].Rec() == if j in list[..k] then Woken(ts[j], osTick) else ts[j]
      invariant needSched <==> exists i :: 0 <= i < k && Due(ts[list[i]], osTick)
      decreases |list| - k
    {
      ListedAt(tasks, list, head, k);
      assert node.Rec() == ts[list[k]];
      var woke := WakeOne(node, osTick);
      assert list[..k + 1] == list[..k] + [list[k]];
      needSched := needSched || woke;
      node := node.next;
      k := k + 1;
    }
    assert list[..k] == list;
    WokenRecords(tasks, ts, list, osTick);
  }

  lemma WokenRecords(tasks: seq<Task>, ts: seq<TaskRec>, list: seq<nat>, tick: nat)
    requires |ts| == |tasks|
    requires forall j :: 0 <= j < |tasks| ==> tasks[j].Rec() == if j in list then Woken(ts[j], tick) else ts[j]
    ensures Records(tasks) == WakeAlong(ts, list, tick)
  {
    hide Woken;
  }

  class Kernel {
    const idleTask: Task
    var currentTask: Task?
    var nextTask: Task?
    var taskList: Task?
    var osTick: nat
    var started: bool

    /** All tasks in creation order; the list links them backwards. */
    ghost var tasks: seq<Task>

    ghost predicate Valid()
      reads this, tasks
    {
      && KernelList(tasks)
      && idleTask == tasks[0]
      && taskList == tasks[|tasks| - 1]
      && (currentTask != null ==> currentTask in tasks)
      && (nextTask != null ==> nextTask in tasks)
      && osTick < 0x1_0000_0000
    }

    ghost function All(): set<Task>
      reads this
    {
      set t | t in tasks
    }

    ghost function View(): KState
      reads this, tasks
    {
      KState(Records(tasks), Number(currentTask), Number(nextTask), osTick, started)
    }

    lemma ViewOk()
      requires Valid()
      ensures StateOk(View())
      ensures currentTask != null ==>
        tasks[currentTask.id] == currentTask && tasks[currentTask.id].Rec() == View().tasks[currentTask.id]
    {
      if currentTask != null { LinkedId(tasks, currentTask); }
      if nextTask != null { LinkedId(tasks, nextTask); }
    }

    /** The state after initialisation: the idle task alone, ready. */
    constructor ()
      ensures Valid() && fresh(idleTask)
      ensures View() == KState([NewTask(0, 0, FOREVER)], NONE, NONE, 0, false)
    {
      idleTask := new Task(0);
      currentTask, nextTask, taskList, osTick, started := null, null, null, 0, false;
      tasks := [];
      new;
      InitTask(idleTask, 0, FOREVER);
      idleTask.next := taskList;
      taskList := idleTask;
      tasks := [idleTask];
      assert Records(tasks) == [NewTask(0, 0, FOREVER)];
    }

    method InitTask(task: Task, period: nat, relativeDeadline: nat)
      modifies task
      ensures task.Rec() == NewTask(osTick, period, relativeDeadline)
      ensures task.next == old(task.next)
    {
      task.period := period;
      task.switches := 0;
      task.execStart := 0;
      task.lastExec := 0;
      task.avgExec := 0;
      task.maxExec := 0;
      task.misses := 0;
      task.arrival := osTick;
      task.wakeup := 0;
      if period > 0 {
        task.deadline := U32(osTick + relativeDeadline);
      } else {
        task.deadline := 0xFFFF_FFFF;
      }
      task.state := Ready;
    }

    lemma PushedRecords(ts: seq<TaskRec>, task: Task)
      requires |tasks| == |ts| + 1 && tasks[|ts|] == task
      requires forall i :: 0 <= i < |ts| ==> tasks[i].Rec() == ts[i]
      ensures Records(tasks) == ts + [task.Rec()]
    {
    }

    lemma NonEmpty()
      requires Valid()
      ensures |tasks| > 0 && KernelList(tasks) && taskList == tasks[|tasks| - 1] && idleTask == tasks[0]
    {
    }

    method CreateTask(task: Task, period: nat, relativeDeadline: nat)
      requires Valid() && task !in tasks && task.id == |tasks|
      modifies this, task
      ensures Valid() && tasks == old(tasks) + [task]
      ensures View() == Create(old(View()), period, relativeDeadline)
    {
      hide KernelList, Records;
      NonEmpty();
      assert forall i :: 0 <= i < |tasks| ==> tasks[i] != task;
      ghost var ts := Records(tasks);
      EachRecord(tasks);
      InitTask(task, period, relativeDeadline);
      task.next := taskList;
      LinkedPush(tasks, task);
      taskList := task;
      tasks := tasks + [task];
      PushedRecords(ts, task);
    }

    /** Scans the list for the earliest deadline. */
    method FindBest() returns (best: Task)
      requires Valid()
      ensures best in tasks && best.id == Pick(Records(tasks))
    {
      hide KernelList, Listed, Records, Pick, PickAlong, Down;
      NonEmpty();
      AllListed(tasks);
      best := FindOnList(tasks, Down(|tasks|, 0), taskList, idleTask);
      AlongAll(Records(tasks), Down(|tasks|, 0), osTick);
    }

    method RecordSwitchOut(task: Task)
      modifies task`lastExec, task`maxExec, task`avgExec, task`misses, task`switches
      ensures task.Rec() == SwitchedOut(old(task.Rec()), osTick)
    {
      var execTime := U32(osTick - task.execStart);
      task.lastExec := execTime;
      if execTime > task.maxExec {
        task.maxExec := execTime;
      }
      if task.avgExec == 0 {
        task.avgExec := execTime;
      } else {
        task.avgExec := U32(execTime + 7 * task.avgExec) / 8;
      }
      if osTick > task.deadline && task.period > 0 {
        task.misses := task.misses + 1;
      }
      task.switches := task.switches + 1;
    }

    /** Statistics of a switch from the current task, if any, to `best`. */
    method RecordSwitch(best: Task)
      requires Valid() && best in tasks && currentTask != best
      modifies All()`lastExec, All()`maxExec, All()`avgExec, All()`misses, All()`switches, All()`execStart
      ensures Valid() && View() == Account(old(View()), best.id)
    {
      hide KernelList, Account, SwitchedOut;
      ViewOk();
      ghost var s := View();
      LinkedId(tasks, best);
      if currentTask != null {
        RecordSwitchOut(currentTask);
      }
      best.execStart := osTick;
      AccountIs(tasks, s, currentTask, best);
    }

    /** The scan, then the decision. */
    method SmartSchedule()
      requires Valid()
      modifies this`nextTask, this`currentTask
      modifies All()`lastExec, All()`maxExec, All()`avgExec, All()`misses, All()`switches, All()`execStart
      ensures Valid() && tasks == old(tasks)
      ensures View() == Schedule(old(View()))
    {
      hide Pick, Best, Account, Records, KernelList;
      ViewOk();
      ghost var s := View();
      var best := FindBest();
      LinkedId(tasks, best);
      nextTask := best;
      assert View() == s.(next := best.id);
      if !started {
        if currentTask == null {
          currentTask := best;
        }
      } else if currentTask != nextTask {
        assert s.current != best.id;
        RecordSwitch(best);
      }
    }

    /** The context switch: the next task becomes the current one. */
    method PendSV()
      requires Valid()
      modifies this`currentTask
      ensures Valid() && View() == Switch(old(View()))
    {
      currentTask := nextTask;
    }

    method Start()
      requires Valid()
      modifies this`nextTask, this`currentTask, this`started
      modifies All()`lastExec, All()`maxExec, All()`avgExec, All()`misses, All()`switches, All()`execStart
      ensures Valid() && tasks == old(tasks)
      ensures View() == SchedulerSpec.Start(old(View()))
    {
      SmartSchedule();
      started := true;
    }

    /** The current task is done with its period. */
    method TaskYield()
      requires Valid() && currentTask != null
      modifies this`nextTask, this`currentTask
      modifies All()`lastExec, All()`maxExec, All()`avgExec, All()`misses, All()`switches, All()`execStart
      modifies currentTask`state, currentTask`arrival, currentTask`deadline
      ensures Valid() && tasks == old(tasks)
      ensures View() == Yield(old(View()))
    {
      hide KernelList, Schedule;
      ghost var s := View();
      ViewOk();
      if currentTask.period > 0 {
        currentTask.state := Waiting;
        currentTask.arrival := U32(currentTask.arrival + currentTask.period);
        currentTask.deadline := U32(currentTask.deadline + currentTask.period);
      } else {
        currentTask.state := Ready;
      }
      OneTask(s, Yielded(s.tasks[s.current]));
      SmartSchedule();
    }

    /** Only the current task's record has changed since state `s`. */
    lemma OneTask(s: KState, t: TaskRec)
      requires Valid() && StateOk(s) && |s.tasks| == |tasks| && currentTask != null && s.current == currentTask.id
      requires currentTask.Rec() == t
      requires forall i :: 0 <= i < |tasks| && tasks[i] != currentTask ==> tasks[i].Rec() == s.tasks[i]
      ensures Records(tasks) == s.tasks[s.current := t]
    {
      LinkedId(tasks, currentTask);
    }

    method SmartDelay(ticks: nat)
      requires Valid()
      modifies this`nextTask, this`currentTask
      modifies All()`lastExec, All()`maxExec, All()`avgExec, All()`misses, All()`switches, All()`execStart
      modifies All()`state, All()`wakeup
      ensures Valid() && tasks == old(tasks)
      ensures View() == Delay(old(View()), ticks)
    {
      hide KernelList, Schedule, Records;
      EachRecord(tasks);
      ViewOk();
      ghost var s := View();
      if ticks == 0 {
        return;
      }
      if currentTask != null {
        currentTask.wakeup := U32(osTick + ticks);
        currentTask.state := Delayed;
        OneTask(s, s.tasks[s.current].(wakeup := U32(s.tick + ticks), state := Delayed));
        SmartSchedule();
      }
    }

    /** Wakes every task that is due. */
    method WakeDue() returns (needSched: bool)
      requires Valid()
      modifies All()`state
      ensures Valid()
      ensures Records(tasks) == WakeAll(old(Records(tasks)), osTick)
      ensures needSched == AnyDue(old(Records(tasks)), osTick)
    {
      hide Listed, Records, WakeAll, WakeAlong, DueAlong, AnyDue, Down;
      NonEmpty();
      AllListed(tasks);
      AlongAll(Records(tasks), Down(|tasks|, 0), osTick);
      needSched := WakeOnList(tasks, Down(|tasks|, 0), taskList, osTick);
    }

    /** The tick interrupt, as far as tasks are concerned. */
    method SysTick()
      requires Valid()
      modifies this`osTick, this`nextTask, this`currentTask
      modifies All()`lastExec, All()`maxExec, All()`avgExec, All()`misses, All()`switches, All()`execStart
      modifies All()`state
      ensures Valid() && tasks == old(tasks)
      ensures View() == Tick(old(View()))
    {
      hide KernelList, Schedule, Records, AnyDue, WakeAll;
      ViewOk();
      ghost var s := View();
      osTick := U32(osTick + 1);
      var needSched := WakeDue();
      assert View() == s.(tick := osTick, tasks := WakeAll(s.tasks, osTick));
      if needSched {
        SmartSchedule();
      }
    }
  }
}
