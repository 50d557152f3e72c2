/**
 What blocking does to the scheduler's list of task blocks. Wait lists use the same
 `next` pointer of a block as that list, so a blocking task takes its place in the one
 by giving up its place in the other.
 */
module TaskList {
  import opened Links
  import opened Scheduler
  import opened SchedulerSpec
  import opened WaitLists

  /**
   The loops of the scheduler and the tick, which start at the newest block, go along
   exactly the tasks that the walk over the pointers meets.
   */
  lemma WalkIsListed(tasks: seq<Task>)
    requires |tasks| > 0 && forall i :: 0 <= i < |tasks| ==> tasks[i].id == i
    requires forall i :: 0 <= i < |tasks| && tasks[i].next != null ==> tasks[i].next in tasks
    requires var list := Walk(Pointers(tasks)); Chained(Pointers(tasks), list) && Distinct(list)
    ensures Listed(tasks, Walk(Pointers(tasks)), tasks[|tasks| - 1])
  {
    hide Distinct, Walk;
    var ps, list := Pointers(tasks), Walk(Pointers(tasks));
    WalkStarts(ps);
    forall i | 0 <= i < |list| ensures tasks[list[i]].next == At(tasks, null, list, i + 1) {
      var next := tasks[list[i]].next;
      assert ps[list[i]] == Number(next);
      assert i + 1 < |list| ==> ps[list[i]] == list[i + 1];
      if next != null {
        var j :| 0 <= j < |tasks| && tasks[j] == next;
        assert next.id == j;
      }
    }
  }

  lemma WalkStarts(nexts: seq<int>)
    requires |nexts| > 0
    ensures Walk(nexts) != [] && Walk(nexts)[0] == |nexts| - 1
  {
  }

  /** The pointers after these tasks have blocked on one object, one after the other. */
  function BlockedAll(nexts: seq<int>, queue: seq<nat>): (r: seq<int>)
    requires InPool(nexts, queue)
    ensures |r| == |nexts|
  {
    if queue == [] then nexts
    else
      var before := queue[..|queue| - 1];
      Enqueued(BlockedAll(nexts, before), before, queue[|queue| - 1])
  }

  /** Where the task created last stands in the queue. */
  function NewestAt(queue: seq<nat>): (k: nat)
    requires queue != []
    ensures k < |queue| && forall i :: 0 <= i < |queue| ==> queue[i] <= queue[k]
  {
    if |queue| == 1 then 0
    else
      var k := NewestAt(queue[..|queue| - 1]);
      assert forall i :: 0 <= i < |queue| - 1 ==> queue[i] == queue[..|queue| - 1][i];
      if queue[k] < queue[|queue| - 1] then |queue| - 1 else k
  }

  function NewestIn(queue: seq<nat>): (x: int)
    ensures queue != [] ==> x in queue && forall y :: y in queue ==> y <= x
    ensures queue == [] ==> x == NONE
  {
    if queue == [] then NONE else queue[NewestAt(queue)]
  }

  lemma {:induction false} BlockedShape(n: nat, queue: seq<nat>)
    requires Distinct(queue) && forall i :: 0 <= i < |queue| ==> queue[i] < n
    ensures Shape(Lists(BlockedAll(Created(n), queue), [queue]), NewestIn(queue))
  {
    hide Shape, Enqueued;
    if queue == [] {
      assert Shape(Lists(Created(n), [[]]), NONE) by { FreshShape(n); }
    } else {
      var before, last := queue[..|queue| - 1], queue[|queue| - 1];
      BlockedShape(n, before);
      var l := Lists(BlockedAll(Created(n), before), [before]);
      assert queue == before + [last] && last !in before;
      assert !Waits(l, last);
      JoinKeepsShape(l, NewestIn(before), 0, last);
      assert Moved(l, Join(0, last)) == Lists(BlockedAll(Created(n), queue), [queue]);
      assert NewestIn(queue) == NewestAfter(NewestIn(before), Join(0, last));
    }
  }

  lemma FreshShape(n: nat)
    ensures Shape(Lists(Created(n), [[]]), NONE)
  {
  }

  /**
   After any tasks of the created list have blocked on one object, in any order, the walk
   meets exactly: the tasks created after the newest blocked one, then that one and the
   tasks that blocked after it.
   */
  lemma ListAfterBlocking(tasks: seq<Task>, queue: seq<nat>)
    requires KernelList(tasks) && InPool(tasks, queue) && Distinct(queue) && queue != []
    ensures var k := NewestAt(queue);
            Walk(BlockedAll(Pointers(tasks), queue)) == Down(|tasks|, queue[k] + 1) + queue[k..]
  {
    hide Distinct, Walk, BlockedAll, Shape;
    PointersCreated(tasks);
    BlockedShape(|tasks|, queue);
    WalkExact(Lists(BlockedAll(Pointers(tasks), queue), [queue]), NewestIn(queue));
    FromPlace(queue, NewestAt(queue));
  }

  lemma {:induction false} FromPlace(queue: seq<nat>, k: nat)
    requires Distinct(queue) && k < |queue|
    ensures From(queue, queue[k]) == queue[k..]
  {
    if k > 0 {
      assert queue[0] != queue[k];
      FromPlace(queue[1..], k - 1);
      assert queue[1..][k - 1..] == queue[k..];
    }
  }

  /** A blocked task is still met exactly if it blocked no earlier than the newest of them. */
  lemma BlockedMetIff(tasks: seq<Task>, queue: seq<nat>, i: nat)
    requires KernelList(tasks) && InPool(tasks, queue) && Distinct(queue) && i < |queue|
    ensures queue[i] in Walk(BlockedAll(Pointers(tasks), queue)) <==> i >= NewestAt(queue)
  {
    hide Walk, BlockedAll, Down, NewestAt;
    ListAfterBlocking(tasks, queue);
    var k := NewestAt(queue);
    if i >= k { assert queue[k..][i - k] == queue[i]; }
  }

  /**
   The walk still meets every task exactly if the blocked tasks are the first of them to
   block and all tasks created before it: a task that blocks alone must be the idle task.
   */
  lemma AllMetIff(tasks: seq<Task>, queue: seq<nat>)
    requires KernelList(tasks) && InPool(tasks, queue) && Distinct(queue) && queue != []
    ensures (forall x: nat :: x < |tasks| ==> x in Walk(BlockedAll(Pointers(tasks), queue)))
       <==> (forall x: nat :: x in queue <==> x <= queue[0])
  {
    hide Walk, BlockedAll, Pointers;
    ListAfterBlocking(tasks, queue);
    var n, k := |tasks|, NewestAt(queue);
    var met, above := Walk(BlockedAll(Pointers(tasks), queue)), Down(n, queue[k] + 1);
    hide Down, NewestAt;
    assert forall x: nat :: x in met <==> x in above || x in queue[k..];
    forall x: nat | queue[k] < x < n ensures x in above {
      assert above[n - 1 - x] == x;
    }
    if forall x: nat :: x in queue <==> x <= queue[0] {
      assert queue[k] in queue && queue[k] == queue[0];
      assert k == 0 && queue[0..] == queue;
    }
    if forall x: nat :: x < n ==> x in met {
      assert queue[0] in met;
      assert queue[0..] == queue;
      forall x: nat | x <= queue[0] ensures x in queue {
        assert x in met;
      }
    }
  }

  /**
   Three tasks. The middle one blocks, and the walk ends at it; when the first one
   blocks on the same object too, it is linked behind and the walk meets all tasks again.
   */
  lemma CutAndRestored(tasks: seq<Task>)
    requires KernelList(tasks) && |tasks| == 3
    ensures InPool(Pointers(tasks), [1]) && Walk(BlockedAll(Pointers(tasks), [1])) == [2, 1]
    ensures InPool(Pointers(tasks), [1, 0]) && Walk(BlockedAll(Pointers(tasks), [1, 0])) == [2, 1, 0]
  {
    hide BlockedAll, Walk, Pointers;
    ListAfterBlocking(tasks, [1]);
    ListAfterBlocking(tasks, [1, 0]);
    assert [1, 0][..1] == [1];
    assert NewestAt([1]) == 0 && NewestAt([1, 0]) == 0;
    assert Down(3, 2) == [2];
  }
}
