/**
 The `next` pointers of the tasks, as numbers. The scheduler's list and every wait list
 run through the same pointers: a task that blocks gives up its place in the one for a
 place in the other, and does not get it back when it is woken.
 */
module WaitLists {
  import opened Links
  import opened SchedulerSpec

  /** The pointers that creating `n` tasks leaves: each task points at the one created before it. */
  function Created(n: nat): (r: seq<int>)
    ensures |r| == n && forall i :: 0 <= i < n ==> r[i] == if i == 0 then NONE else i - 1
  {
    seq(n, i => if i == 0 then NONE else i - 1)
  }

  /** The pointers after task `t` has joined a wait list: the last one points at it, and it points nowhere. */
  function Enqueued(nexts: seq<int>, queue: seq<nat>, t: nat): (r: seq<int>)
    requires InPool(nexts, queue) && t < |nexts|
    ensures |r| == |nexts|
  {
    (if queue == [] then nexts else nexts[queue[|queue| - 1] := t])[t := NONE]
  }

  /** The pointers after the task at position `k` has left: the one before it points past it, and it points nowhere. */
  function Dequeued(nexts: seq<int>, queue: seq<nat>, k: nat): (r: seq<int>)
    requires InPool(nexts, queue) && k < |queue|
    ensures |r| == |nexts|
  {
    (if k == 0 then nexts else nexts[queue[k - 1] := nexts[queue[k]]])[queue[k] := NONE]
  }

  // ----- the scheduler's walk -----

  /** Following the pointers from task `x`, at most `fuel` tasks far. */
  function Reach(nexts: seq<int>, x: int, fuel: nat): (r: seq<nat>)
    ensures forall i :: 0 <= i < |r| ==> r[i] < |nexts|
    decreases fuel
  {
    if fuel == 0 || !(0 <= x < |nexts|) then [] else [x] + Reach(nexts, nexts[x], fuel - 1)
  }

  /** The tasks that the scheduler and the tick meet: they start at the task created last. */
  function Walk(nexts: seq<int>): (r: seq<nat>)
    ensures forall i :: 0 <= i < |r| ==> r[i] < |nexts|
  {
    Reach(nexts, |nexts| - 1, |nexts|)
  }

  /** The tasks of a list point at one another in its order, and the last one points nowhere. */
  ghost predicate Chained(nexts: seq<int>, list: seq<nat>) {
    && InPool(nexts, list)
    && (forall i, j :: 0 <= i && j == i + 1 && j < |list| ==> nexts[list[i]] == list[j])
    && (list != [] ==> nexts[list[|list| - 1]] == NONE)
  }

  /** The first task of a chained list, and the rest of it. */
  lemma ChainedTail(nexts: seq<int>, list: seq<nat>)
    requires Chained(nexts, list) && list != []
    ensures list[0] < |nexts| && nexts[list[0]] == if |list| == 1 then NONE else list[1]
    ensures Chained(nexts, list[1..])
  {
    var rest := list[1..];
    assert forall i :: 0 <= i < |rest| ==> rest[i] == list[i + 1];
  }

  lemma {:induction false} ReachChained(nexts: seq<int>, list: seq<nat>, fuel: nat)
    requires Chained(nexts, list) && list != [] && |list| <= fuel
    ensures Reach(nexts, list[0], fuel) == list
    decreases fuel
  {
    hide Chained;
    ChainedTail(nexts, list);
    var rest := list[1..];
    assert list == [list[0]] + rest;
    if rest == [] {
      assert Reach(nexts, NONE, fuel - 1) == [];
    } else {
      assert nexts[list[0]] == rest[0];
      ReachChained(nexts, rest, fuel - 1);
    }
  }

  /** A list without repetition of numbers below `n` is no longer than `n`. */
  lemma {:induction false} DistinctFits(list: seq<nat>, n: nat)
    requires Distinct(list) && forall i :: 0 <= i < |list| ==> list[i] < n
    ensures |list| <= n
  {
    if list != [] {
      assert list[0] < n;
      if n - 1 in list {
        var k :| 0 <= k < |list| && list[k] == n - 1;
        DistinctCut(list, k, k);
        var r := list[..k] + list[k + 1..];
        forall i | 0 <= i < |r| ensures r[i] < n - 1 {
          assert r[i] in r;
          assert r[i] == list[if i < k then i else i + 1];
        }
        DistinctFits(r, n - 1);
      } else {
        forall i | 0 <= i < |list| ensures list[i] < n - 1 {
          assert list[i] in list;
        }
        DistinctFits(list, n - 1);
      }
    }
  }

  /** A chained list from the newest task on is all that the walk meets. */
  lemma WalkChained(nexts: seq<int>, list: seq<nat>)
    requires Chained(nexts, list) && Distinct(list) && list != [] && list[0] == |nexts| - 1
    ensures Walk(nexts) == list
  {
    DistinctFits(list, |nexts|);
    ReachChained(nexts, list, |nexts|);
  }

  // ----- any number of wait lists -----

  /** The pointers, and for every mutex and semaphore its queue. */
  datatype Lists = Lists(nexts: seq<int>, queues: seq<seq<nat>>)

  datatype Move = Join(queue: nat, task: nat) | Leave(queue: nat, at: nat)

  ghost predicate Waits(l: Lists, x: nat) { exists q :: 0 <= q < |l.queues| && x in l.queues[q] }

  /** A task that blocks waits for nothing else; what is woken or handed a mutex was waiting. */
  ghost predicate MayMove(l: Lists, v: Move) {
    && v.queue < |l.queues| && InPool(l.nexts, l.queues[v.queue])
    && match v {
         case Join(_, t) => t < |l.nexts| && !Waits(l, t)
         case Leave(q, k) => k < |l.queues[q]|
       }
  }

  ghost function Moved(l: Lists, v: Move): Lists
    requires MayMove(l, v)
  {
    match v
    case Join(q, t) => Lists(Enqueued(l.nexts, l.queues[q], t), l.queues[q := l.queues[q] + [t]])
    case Leave(q, k) =>
      Lists(Dequeued(l.nexts, l.queues[q], k), l.queues[q := l.queues[q][..k] + l.queues[q][k + 1..]])
  }

  ghost predicate QueuesOk(l: Lists, newest: int) {
    && (forall q :: 0 <= q < |l.queues| ==> Distinct(l.queues[q]) && Chained(l.nexts, l.queues[q]))
    && (forall q, x :: 0 <= q < |l.queues| && x in l.queues[q] ==> x <= newest)
    && forall p, q, x :: 0 <= p < q < |l.queues| && x in l.queues[p] ==> x !in l.queues[q]
  }

  /**
   Where the pointers lead, when `newest` is the newest task that has ever blocked: along
   every queue; from a task created after `newest` to the one created before it; and from
   `newest`, if it waits no more, nowhere.
   */
  ghost predicate Shape(l: Lists, newest: int) {
    && NONE <= newest < |l.nexts|
    && QueuesOk(l, newest)
    && (forall x :: newest < x < |l.nexts| ==> l.nexts[x] == if x == 0 then NONE else x - 1)
    && (newest != NONE && !Waits(l, newest) ==> l.nexts[newest] == NONE)
  }

  function NewestAfter(newest: int, v: Move): int {
    if v.Join? && v.task > newest then v.task else newest
  }

  lemma EnqueuedChained(nexts: seq<int>, queue: seq<nat>, t: nat)
    requires Chained(nexts, queue) && Distinct(queue) && t < |nexts| && t !in queue
    ensures Chained(Enqueued(nexts, queue, t), queue + [t]) && Distinct(queue + [t])
  {
    var r, nexts' := queue + [t], Enqueued(nexts, queue, t);
    forall i, j | 0 <= i && j == i + 1 && j < |r| ensures nexts'[r[i]] == r[j] {
      assert r[i] == queue[i] && queue[i] != t;
      if j < |queue| { assert queue[i] != queue[|queue| - 1]; }
    }
  }

  lemma DequeuedChained(nexts: seq<int>, queue: seq<nat>, k: nat)
    requires Chained(nexts, queue) && Distinct(queue) && k < |queue|
    ensures var r := queue[..k] + queue[k + 1..];
            Chained(Dequeued(nexts, queue, k), r) && Distinct(r) && queue[k] !in r
  {
    var r, nexts' := queue[..k] + queue[k + 1..], Dequeued(nexts, queue, k);
    DistinctCut(queue, k, k);
    assert forall i :: 0 <= i < |r| ==> r[i] == queue[if i < k then i else i + 1];
    forall i, j | 0 <= i && j == i + 1 && j < |r| ensures nexts'[r[i]] == r[j] {
      assert r[i] != queue[k];
      if i != k - 1 && k > 0 { assert r[i] != queue[k - 1]; }
    }
    if r != [] {
      assert r[|r| - 1] != queue[k];
    }
  }

  /** Pointers off a list do not matter to it. */
  lemma StillChained(nexts: seq<int>, nexts': seq<int>, list: seq<nat>)
    requires Chained(nexts, list) && |nexts'| == |nexts|
    requires forall x :: x in list && x < |nexts| ==> nexts'[x] == nexts[x]
    ensures Chained(nexts', list)
  {
    assert forall i :: 0 <= i < |list| ==> list[i] in list;
  }

  lemma JoinKeepsShape(l: Lists, newest: int, q: nat, t: nat)
    requires Shape(l, newest) && MayMove(l, Join(q, t))
    ensures Shape(Moved(l, Join(q, t)), NewestAfter(newest, Join(q, t)))
  {
    hide Chained, Distinct;
    var queue, l' := l.queues[q], Moved(l, Join(q, t));
    hide Enqueued;
    assert t !in queue;
    EnqueuedChained(l.nexts, queue, t);
    JoinChanges(l.nexts, queue, t);
    forall p | 0 <= p < |l.queues| && p != q ensures Chained(l'.nexts, l.queues[p]) {
      assert t !in l.queues[p];
      StillChained(l.nexts, l'.nexts, l.queues[p]);
    }
    assert t in l'.queues[q];
    assert forall p, x :: 0 <= p < |l.queues| && x in l.queues[p] ==> x in l'.queues[p];
    assert Waits(l', t);
  }

  lemma JoinChanges(nexts: seq<int>, queue: seq<nat>, t: nat)
    requires InPool(nexts, queue) && t < |nexts|
    ensures forall x :: 0 <= x < |nexts| && x != t && x !in queue ==> Enqueued(nexts, queue, t)[x] == nexts[x]
  {
  }

  lemma LeaveChanges(nexts: seq<int>, queue: seq<nat>, k: nat)
    requires InPool(nexts, queue) && k < |queue|
    ensures forall x :: 0 <= x < |nexts| && x !in queue ==> Dequeued(nexts, queue, k)[x] == nexts[x]
    ensures Dequeued(nexts, queue, k)[queue[k]] == NONE
  {
  }

  lemma LeaveKeepsShape(l: Lists, newest: int, q: nat, k: nat)
    requires Shape(l, newest) && MayMove(l, Leave(q, k))
    ensures Shape(Moved(l, Leave(q, k)), newest)
  {
    hide Chained, Distinct;
    var queue, l' := l.queues[q], Moved(l, Leave(q, k));
    hide Dequeued;
    var r := queue[..k] + queue[k + 1..];
    DequeuedChained(l.nexts, queue, k);
    LeaveChanges(l.nexts, queue, k);
    assert queue == queue[..k] + [queue[k]] + queue[k + 1..];
    assert forall x :: x in queue <==> x in r || x == queue[k];
    forall p | 0 <= p < |l.queues| && p != q ensures Chained(l'.nexts, l.queues[p]) {
      StillChained(l.nexts, l'.nexts, l.queues[p]);
    }
    if newest != NONE && !Waits(l', newest) {
      if newest in queue {
        assert l'.queues[q] == r;
        assert newest == queue[k];
      } else {
        forall p | 0 <= p < |l.queues| ensures newest !in l.queues[p] {
          assert p != q ==> l'.queues[p] == l.queues[p];
        }
      }
    }
  }

  lemma MoveKeepsShape(l: Lists, newest: int, v: Move)
    requires Shape(l, newest) && MayMove(l, v)
    ensures Shape(Moved(l, v), NewestAfter(newest, v)) && |Moved(l, v).nexts| == |l.nexts|
  {
    hide Shape;
    match v {
      case Join(q, t) => JoinKeepsShape(l, newest, q, t);
      case Leave(q, k) => LeaveKeepsShape(l, newest, q, k);
    }
  }

  // ----- what the walk meets -----

  /** Task numbers from `n - 1` down to `lo`. */
  function Down(n: nat, lo: nat): (r: seq<nat>)
    requires lo <= n
    ensures |r| == n - lo && forall i :: 0 <= i < |r| ==> r[i] == n - 1 - i
  {
    if n == lo then [] else [n - 1] + Down(n - 1, lo)
  }

  /** A queue from task `x` on. */
  function From(queue: seq<nat>, x: nat): (r: seq<nat>)
    requires x in queue
    ensures r != [] && r[0] == x
  {
    if queue[0] == x then queue else From(queue[1..], x)
  }

  /** Task `x` and the tasks that wait behind it. */
  function Behind(queues: seq<seq<nat>>, x: nat): (r: seq<nat>)
    ensures r != [] && r[0] == x
  {
    if queues == [] then [x] else if x in queues[0] then From(queues[0], x) else Behind(queues[1..], x)
  }

  lemma {:induction false} FromChained(nexts: seq<int>, queue: seq<nat>, x: nat)
    requires x in queue && Chained(nexts, queue) && Distinct(queue)
    ensures Chained(nexts, From(queue, x)) && Distinct(From(queue, x)) && forall y :: y in From(queue, x) ==> y in queue
  {
    if queue[0] != x {
      var rest := queue[1..];
      assert forall i :: 0 <= i < |rest| ==> rest[i] == queue[i + 1];
      FromChained(nexts, rest, x);
    }
  }

  lemma {:induction false} BehindChained(nexts: seq<int>, queues: seq<seq<nat>>, x: nat)
    requires forall q :: 0 <= q < |queues| ==> Distinct(queues[q]) && Chained(nexts, queues[q])
    requires x < |nexts| && ((forall q :: 0 <= q < |queues| ==> x !in queues[q]) ==> nexts[x] == NONE)
    ensures Chained(nexts, Behind(queues, x)) && Distinct(Behind(queues, x))
    ensures forall y :: y in Behind(queues, x) ==> y == x || exists q :: 0 <= q < |queues| && y in queues[q]
    decreases |queues|
  {
    hide Chained, Distinct;
    if queues == [] {
      OneChained(nexts, x);
    } else if x in queues[0] {
      FromChained(nexts, queues[0], x);
    } else {
      var rest := queues[1..];
      assert forall q :: 0 <= q < |rest| ==> rest[q] == queues[q + 1];
      BehindChained(nexts, rest, x);
    }
  }

  lemma OneChained(nexts: seq<int>, x: nat)
    requires x < |nexts| && nexts[x] == NONE
    ensures Chained(nexts, [x]) && Distinct([x])
  {
  }

  /** What the walk meets: all tasks created after `newest`, then that one and the tasks that wait behind it. */
  function Met(n: nat, queues: seq<seq<nat>>, newest: int): seq<nat>
    requires NONE <= newest < n
  {
    if newest == NONE then Down(n, 0) else Down(n, newest + 1) + Behind(queues, newest)
  }

  lemma JoinedChained(nexts: seq<int>, lo: nat, tail: seq<nat>)
    requires lo <= |nexts| && forall x :: lo <= x < |nexts| ==> nexts[x] == if x == 0 then NONE else x - 1
    requires Chained(nexts, tail) && Distinct(tail) && forall y :: y in tail ==> y < lo
    requires if tail == [] then lo == 0 else lo == tail[0] + 1
    ensures var list := Down(|nexts|, lo) + tail; Chained(nexts, list) && Distinct(list)
  {
    var d := Down(|nexts|, lo);
    var list := d + tail;
    assert forall i :: 0 <= i < |d| ==> list[i] == |nexts| - 1 - i;
    assert forall i :: |d| <= i < |list| ==> list[i] == tail[i - |d|] && list[i] in tail;
  }

  /** In every state of that shape the walk is exactly this, and it comes to an end. */
  lemma WalkExact(l: Lists, newest: int)
    requires Shape(l, newest)
    ensures Walk(l.nexts) == Met(|l.nexts|, l.queues, newest)
    ensures Chained(l.nexts, Walk(l.nexts)) && Distinct(Walk(l.nexts))
  {
    hide Chained, Distinct, Down, Behind, Walk;
    var n := |l.nexts|;
    if n == 0 {
      NoneMet(l.nexts);
    } else if newest == NONE {
      NoneChained(l.nexts);
      JoinedChained(l.nexts, 0, []);
      assert Down(n, 0) + [] == Down(n, 0);
      WalkChained(l.nexts, Down(n, 0));
    } else {
      BehindChained(l.nexts, l.queues, newest);
      JoinedChained(l.nexts, newest + 1, Behind(l.queues, newest));
      WalkChained(l.nexts, Met(n, l.queues, newest));
    }
  }

  lemma NoneMet(nexts: seq<int>)
    requires nexts == []
    ensures Walk(nexts) == [] == Down(0, 0) && Chained(nexts, []) && Distinct([])
  {
  }

  lemma NoneChained(nexts: seq<int>)
    ensures Chained(nexts, []) && Distinct([])
  {
  }

  lemma {:induction false} FromPlaces(queue: seq<nat>, x: nat, y: nat)
    requires x in queue && Distinct(queue)
    ensures y in From(queue, x) <==> exists i, j :: 0 <= i <= j < |queue| && queue[i] == x && queue[j] == y
  {
    if queue[0] == x {
      if y in queue {
        var j :| 0 <= j < |queue| && queue[j] == y;
        assert 0 <= 0 <= j < |queue| && queue[0] == x;
      }
    } else {
      var rest := queue[1..];
      FromPlaces(rest, x, y);
      if y in From(rest, x) {
        var i, j :| 0 <= i <= j < |rest| && rest[i] == x && rest[j] == y;
        assert queue[i + 1] == x && queue[j + 1] == y;
      }
      if i, j :| 0 <= i <= j < |queue| && queue[i] == x && queue[j] == y {
        assert rest[i - 1] == x && rest[j - 1] == y;
      }
    }
  }

  /** Task `y` waits behind task `x` for the same object. */
  ghost predicate WaitsBehind(queue: seq<nat>, x: nat, y: nat) {
    exists i, j :: 0 <= i < j < |queue| && queue[i] == x && queue[j] == y
  }

  lemma {:induction false} BehindPlaces(queues: seq<seq<nat>>, x: nat, y: nat)
    requires forall q :: 0 <= q < |queues| ==> Distinct(queues[q])
    requires forall p, q, z :: 0 <= p < q < |queues| && z in queues[p] ==> z !in queues[q]
    ensures y in Behind(queues, x) <==> y == x || exists q :: 0 <= q < |queues| && WaitsBehind(queues[q], x, y)
    decreases |queues|
  {
    hide Distinct, From;
    if queues != [] {
      var first, rest := queues[0], queues[1..];
      assert forall q :: 0 <= q < |rest| ==> rest[q] == queues[q + 1];
      if x in first {
        FromPlaces(first, x, y);
        assert forall q :: 0 < q < |queues| ==> x !in queues[q];
      } else {
        BehindPlaces(rest, x, y);
        assert !WaitsBehind(first, x, y);
        if q :| 0 <= q < |rest| && WaitsBehind(rest[q], x, y) {
          assert WaitsBehind(queues[q + 1], x, y);
        }
        if q :| 0 <= q < |queues| && WaitsBehind(queues[q], x, y) {
          assert WaitsBehind(rest[q - 1], x, y);
        }
      }
    }
  }

  /**
   The walk meets a task exactly if nothing newer has ever blocked, or the newest task
   that has ever blocked still waits, and this one waits behind it for the same object.
   */
  lemma MetIff(l: Lists, newest: int, x: nat)
    requires Shape(l, newest) && x < |l.nexts|
    ensures x in Walk(l.nexts) <==>
      x >= newest || exists q :: 0 <= q < |l.queues| && WaitsBehind(l.queues[q], newest, x)
  {
    hide Distinct, Chained, WaitsBehind, Behind, Walk;
    WalkExact(l, newest);
    var lo := newest + 1;
    var above := Down(|l.nexts|, lo);
    assert x in above <==> x >= lo by {
      if x >= lo { assert above[|l.nexts| - 1 - x] == x; }
    }
    if newest != NONE {
      BehindPlaces(l.queues, newest, x);
    }
  }

  // ----- whole runs -----

  ghost predicate Moves(l: Lists, v: Move, l': Lists) { MayMove(l, v) && l' == Moved(l, v) }

  ghost predicate MovesOf(ls: seq<Lists>, vs: seq<Move>) {
    && |ls| == |vs| + 1
    && forall i, j :: 0 <= i < |vs| && j == i + 1 ==> Moves(ls[i], vs[i], ls[j])
  }

  /** The newest of the tasks that have blocked in the first `n` moves. */
  function Newest(vs: seq<Move>, n: nat): int
    requires n <= |vs|
  {
    if n == 0 then NONE else NewestAfter(Newest(vs, n - 1), vs[n - 1])
  }

  lemma {:induction false} ShapeOverRuns(ls: seq<Lists>, vs: seq<Move>, n: nat)
    requires MovesOf(ls, vs) && Shape(ls[0], NONE) && n < |ls|
    ensures Shape(ls[n], Newest(vs, n)) && |ls[n].nexts| == |ls[0].nexts|
    decreases n
  {
    hide Shape, Moved, MayMove;
    if n > 0 {
      ShapeOverRuns(ls, vs, n - 1);
      assert Moves(ls[n - 1], vs[n - 1], ls[n]);
      MoveKeepsShape(ls[n - 1], Newest(vs, n - 1), vs[n - 1]);
    }
  }

  /** Task lists and empty wait lists as creation and initialisation leave them. */
  ghost predicate Untouched(l: Lists) {
    l.nexts == Created(|l.nexts|) && forall q :: 0 <= q < |l.queues| ==> l.queues[q] == []
  }

  /**
   What the scheduler and the tick meet in every state of every run in which tasks block
   on any objects and are woken or handed a mutex in any order.
   */
  lemma MetOverRuns(ls: seq<Lists>, vs: seq<Move>, n: nat)
    requires MovesOf(ls, vs) && Untouched(ls[0]) && n < |ls|
    ensures var l, newest := ls[n], Newest(vs, n);
            && NONE <= newest < |l.nexts| == |ls[0].nexts|
            && Walk(l.nexts) == Met(|l.nexts|, l.queues, newest)
            && forall x: nat :: x < |l.nexts| ==>
                 (x in Walk(l.nexts) <==>
                  x >= newest || exists q :: 0 <= q < |l.queues| && WaitsBehind(l.queues[q], newest, x))
  {
    hide Moves, Walk, Met, WaitsBehind;
    assert Shape(ls[0], NONE);
    ShapeOverRuns(ls, vs, n);
    WalkExact(ls[n], Newest(vs, n));
    forall x: nat | x < |ls[n].nexts|
      ensures x in Walk(ls[n].nexts) <==>
        x >= Newest(vs, n) || exists q :: 0 <= q < |ls[n].queues| && WaitsBehind(ls[n].queues[q], Newest(vs, n), x)
    {
      MetIff(ls[n], Newest(vs, n), x);
    }
  }
}
