/** The timer service over linked timer blocks, each call proved to be its function on pool and list. */
module Timers {
  import opened Links
  import opened TimerSpec

  class Timer {
    var id: nat
    var kind: Kind
    var state: TimerState
    var periodMs: nat
    var remainingMs: nat
    var callback: bool
    var next: Timer?

    /** The block's place in the pool; in the proof only. */
    ghost const slot: nat

    constructor (ghost slot: nat)
      ensures this.slot == slot && Rec() == FREE && next == null
    {
      id, kind, state, periodMs, remainingMs, callback, next := 0, OneShot, Stopped, 0, 0, false, null;
      this.slot := slot;
    }

    /** All fields but the id. */
    method Configure(kind: Kind, periodMs: nat, callback: bool)
      modifies this`kind, this`state, this`periodMs, this`remainingMs, this`callback, this`next
      ensures Rec() == TimerRec(id, kind, Stopped, periodMs, periodMs, callback) && next == null
    {
      this.kind := kind;
      state := Stopped;
      this.periodMs := periodMs;
      remainingMs := periodMs;
      this.callback := callback;
      next := null;
    }

    /** All fields zero. */
    method Clear()
      modifies this
      ensures Rec() == FREE && next == null
    {
      id, kind, state, periodMs, remainingMs, callback, next := 0, OneShot, Stopped, 0, 0, false, null;
    }

    function Rec(): TimerRec
      reads this`id, this`kind, this`state, this`periodMs, this`remainingMs, this`callback
    {
      TimerRec(id, kind, state, periodMs, remainingMs, callback)
    }
  }

  ghost predicate PoolOk(pool: seq<Timer>) {
    |pool| == MAX_TIMERS && forall i :: 0 <= i < |pool| ==> pool[i].slot == i
  }

  ghost function Records(pool: seq<Timer>): (r: seq<TimerRec>)
    reads pool
    ensures |r| == |pool|
  {
    seq(|pool|, i requires 0 <= i < |pool| reads pool => pool[i].Rec())
  }

  ghost function Nexts(pool: seq<Timer>): (r: seq<Timer?>)
    reads pool
    ensures |r| == |pool|
  {
    seq(|pool|, i requires 0 <= i < |pool| reads pool => pool[i].next)
  }

  lemma BlockAt(pool: seq<Timer>, i: nat)
    requires i < |pool|
    ensures Records(pool)[i] == pool[i].Rec() && Nexts(pool)[i] == pool[i].next
  {
  }

  lemma EachBlock(pool: seq<Timer>)
    ensures forall i :: 0 <= i < |pool| ==> Records(pool)[i] == pool[i].Rec() && Nexts(pool)[i] == pool[i].next
  {
  }

  lemma {:induction false} WithoutAt(list: seq<nat>, i: nat)
    requires i < |list| && Distinct(list)
    ensures Without(list, list[i]) == list[..i] + list[i + 1..]
  {
    var rest := list[1..];
    if i > 0 {
      WithoutAt(rest, i - 1);
      assert rest[i - 1] == list[i] != list[0];
      assert list[..i] == [list[0]] + rest[..i - 1] && rest[i..] == list[i + 1..];
    }
  }

  /** A pool and its pointers represent the state `v`: the list is linked, and only running timers are on it. */
  ghost predicate Represents(pool: seq<Timer>, v: TState, nexts: seq<Timer?>, head: Timer?) {
    && PoolOk(pool) && |v.pool| == |nexts| == |pool|
    && ListSound(v) && InPool(pool, v.active) && Linked(pool, nexts, null, v.active, head)
  }

  /** A list with a stopped timer on it is not sound. */
  lemma ListedStopped(pool: seq<Timer>, v: TState, nexts: seq<Timer?>, head: Timer?, t: nat)
    requires t < |v.pool| && t in v.active && v.pool[t].state == Stopped
    ensures !Represents(pool, v, nexts, head)
  {
    hide Linked;
    var i :| 0 <= i < |v.active| && v.active[i] == t;
  }

  /**
   What starting writes when the timer is at the head of the list already: it then points
   at itself, and no list that ends is linked from it.
   */
  lemma PointsAtItself(pool: seq<Timer>, s: TState, nexts: seq<Timer?>, head: Timer?, t: nat)
    requires Represents(pool, s, nexts, head) && t < |pool| && s.active != [] && s.active[0] == t
    ensures nexts[t := head][t] == pool[t]
    ensures forall list :: InPool(pool, list) ==> !Linked(pool, nexts[t := head], null, list, pool[t])
  {
    hide Distinct, ListSound;
    Follow(pool, nexts, null, s.active, head, 0);
    forall list | InPool(pool, list) ensures !Linked(pool, nexts[t := head], null, list, pool[t]) {
      if Linked(pool, nexts[t := head], null, list, pool[t]) {
        AllAlike(pool, nexts[t := head], list, t, |list| - 1);
      }
    }
  }

  lemma {:induction false} AllAlike(pool: seq<Timer>, nexts: seq<Timer?>, list: seq<nat>, t: nat, k: nat)
    requires PoolOk(pool) && |nexts| == |pool| && InPool(pool, list) && t < |pool| && nexts[t] == pool[t]
    requires Linked(pool, nexts, null, list, pool[t]) && k < |list|
    ensures list[k] == t
  {
    if k > 0 {
      AllAlike(pool, nexts, list, t, k - 1);
      Follow(pool, nexts, null, list, pool[t], k - 1);
    }
    assert pool[list[k]] == pool[t] ==> pool[list[k]].slot == list[k];
  }

  /** A timer outside the list may change as it likes. */
  lemma OffTheList(pool: seq<Timer>, s: TState, nexts: seq<Timer?>, head: Timer?, t: nat, s': TState)
    requires PoolOk(pool) && |s.pool| == |nexts| == |pool| && ListSound(s) && t < |pool|
    requires InPool(pool, s'.active) && Linked(pool, nexts, null, s'.active, head)
    requires s'.active == Without(s.active, t)
    requires |s'.pool| == |s.pool| && forall j :: 0 <= j < |pool| && j != t ==> s'.pool[j] == s.pool[j]
    ensures Represents(pool, s', nexts[t := null], head)
  {
    hide Linked, Without, Distinct;
    WithoutExact(s.active, t);
    StillLinked(pool, nexts, null, s'.active, head, t, null);
    forall i | 0 <= i < |s'.active|
      ensures s'.pool[s'.active[i]].id != 0 && s'.pool[s'.active[i]].state == Running
    {
      assert s'.active[i] in s'.active;
    }
  }

  /** A timer may change where the list does not look. */
  lemma SameList(pool: seq<Timer>, s: TState, nexts: seq<Timer?>, head: Timer?, s': TState)
    requires Represents(pool, s, nexts, head) && s'.active == s.active && |s'.pool| == |s.pool|
    requires forall t :: 0 <= t < |pool| && t in s.active ==>
      s'.pool[t].id == s.pool[t].id && s'.pool[t].state == s.pool[t].state
    ensures Represents(pool, s', nexts, head)
  {
    hide Linked, Distinct;
  }

  lemma Started(pool: seq<Timer>, s: TState, nexts: seq<Timer?>, head: Timer?, t: nat)
    requires Represents(pool, s, nexts, head) && t < |pool|
    requires s.pool[t].id != 0 && s.pool[t].state != Running
    ensures Represents(pool, Start(s, t), nexts[t := head], pool[t])
  {
    hide Linked;
    Pushed(pool, nexts, null, s.active, head, t);
  }

  // ----- the walk of a tick -----

  /** Pool and pointers after the tick that began in `s` has dealt with the first `k` listed timers. */
  ghost predicate Walked(pool: seq<Timer>, s: TState, records: seq<TimerRec>, nexts: seq<Timer?>, head: Timer?,
                         front: seq<nat>, kept: seq<nat>, k: nat) {
    && PoolOk(pool) && |s.pool| == |nexts| == |pool| && ListSound(s) && k <= |s.active|
    && records == TickPool(s.pool, s.active[..k])
    && var list := front + kept + s.active[k..];
       Distinct(list) && InPool(pool, list) && Linked(pool, nexts, null, list, head)
  }

  /** What the walk finds at position `k`. */
  lemma Here(pool: seq<Timer>, s: TState, records: seq<TimerRec>, nexts: seq<Timer?>, head: Timer?,
             front: seq<nat>, kept: seq<nat>, k: nat)
    requires Walked(pool, s, records, nexts, head, front, kept, k) && k < |s.active|
    ensures var slot := s.active[k];
            && InPool(pool, s.active) && InPool(pool, kept) && slot < |pool| == |records| && slot !in kept
            && records[slot] == s.pool[slot] && records[slot].state == Running
              && nexts[slot] == At(pool, null, s.active, k + 1)
  {
    var list, slot, i := front + kept + s.active[k..], s.active[k], |front| + |kept|;
    assert list[i] == slot;
    assert k + 1 < |s.active| ==> list[i + 1] == s.active[k + 1];
    assert slot !in s.active[..k];
    assert forall j :: 0 <= j < |kept| ==> list[|front| + j] == kept[j];
  }

  /** What unlinking the expiring timer at position `k` makes of the list. */
  lemma TakenOff(pool: seq<Timer>, s: TState, records: seq<TimerRec>, nexts: seq<Timer?>, head: Timer?,
                 front: seq<nat>, kept: seq<nat>, k: nat)
    requires Walked(pool, s, records, nexts, head, front, kept, k) && k < |s.active|
    requires InPool(pool, s.active) && InPool(pool, kept)
    ensures var list := (if kept == [] then [] else front) + kept + s.active[k + 1..];
            && InPool(pool, list) && Distinct(list) && s.active[k] !in list
            && var next := At(pool, null, s.active, k + 1);
            if kept == [] then Linked(pool, nexts, null, list, next)
            else Linked(pool, nexts[kept[|kept| - 1] := next], null, list, head)
  {
    hide TickPool, Linked, Distinct, ListSound;
    var i, list := |front| + |kept|, front + kept + s.active[k..];
    assert list[i] == s.active[k];
    assert At(pool, null, list, i + 1) == At(pool, null, s.active, k + 1);
    assert list[..i] == front + kept && list[i + 1..] == s.active[k + 1..];
    if kept == [] {
      assert [] + [] + s.active[k + 1..] == list[i + 1..];
      LinkedTail(pool, nexts, null, list, head, i + 1);
      DistinctCut(list, 0, i);
      assert list[..0] + list[i + 1..] == list[i + 1..];
    } else {
      DistinctCut(list, i, i);
      assert list[i - 1] == kept[|kept| - 1];
      Unlinked(pool, nexts, null, list, head, i);
    }
  }

  lemma OneTicked(s: TState, records: seq<TimerRec>, k: nat)
    requires ListOk(s) && k < |s.active| && records == TickPool(s.pool, s.active[..k])
    ensures records[s.active[k] := Ticked(s.pool[s.active[k]])] == TickPool(s.pool, s.active[..k + 1])
  {
    hide Ticked;
    assert s.active[..k + 1] == s.active[..k] + [s.active[k]];
  }

  /** The walk goes on past a timer that does not run out. */
  lemma Kept(pool: seq<Timer>, s: TState, records: seq<TimerRec>, nexts: seq<Timer?>, head: Timer?,
             front: seq<nat>, kept: seq<nat>, k: nat)
    requires Walked(pool, s, records, nexts, head, front, kept, k) && k < |s.active|
    ensures var slot := s.active[k];
            && slot < |pool| == |records|
            && Walked(pool, s, records[slot := Ticked(s.pool[slot])], nexts, head, front, kept + [slot], k + 1)
  {
    hide Ticked, TickPool, Linked, Distinct;
    OneTicked(s, records, k);
    assert front + (kept + [s.active[k]]) + s.active[k + 1..] == front + kept + s.active[k..];
  }

  /** A periodic timer that has been taken off goes back in front. */
  lemma PutInFront(pool: seq<Timer>, s: TState, records: seq<TimerRec>, nexts: seq<Timer?>, head: Timer?,
                   left: seq<nat>, kept: seq<nat>, k: nat)
    requires PoolOk(pool) && |s.pool| == |nexts| == |pool| && ListSound(s) && k < |s.active| && s.active[k] < |pool|
    requires records == TickPool(s.pool, s.active[..k + 1])
    requires var list := left + kept + s.active[k + 1..];
             && Distinct(list) && InPool(pool, list) && s.active[k] !in list && Linked(pool, nexts, null, list, head)
    ensures var slot := s.active[k];
            Walked(pool, s, records, nexts[slot := head], pool[slot], [slot] + left, kept, k + 1)
  {
    hide Ticked, TickPool, Linked, Distinct, ListSound;
    var slot, list := s.active[k], left + kept + s.active[k + 1..];
    Pushed(pool, nexts, null, list, head, slot);
    DistinctPush(list, slot);
    assert [slot] + left + kept + s.active[k + 1..] == [slot] + list;
  }

  /** The walk relinks a timer that runs out. */
  lemma Relinked(pool: seq<Timer>, s: TState, records: seq<TimerRec>, nexts: seq<Timer?>, head: Timer?,
                 front: seq<nat>, kept: seq<nat>, k: nat)
    requires Walked(pool, s, records, nexts, head, front, kept, k) && k < |s.active|
    requires InPool(pool, s.active) && InPool(pool, kept)
    ensures var slot, next := s.active[k], At(pool, null, s.active, k + 1);
            var left := if kept == [] then [] else front;
            var nexts' := if kept == [] then nexts else nexts[kept[|kept| - 1] := next];
            var head' := if kept == [] then next else head;
            && slot < |pool| == |records|
            && var records' := records[slot := Ticked(s.pool[slot])];
            if s.pool[slot].kind == Periodic
            then Walked(pool, s, records', nexts'[slot := head'], pool[slot], [slot] + left, kept, k + 1)
            else Walked(pool, s, records', nexts'[slot := null], head', left, kept, k + 1)
  {
    hide Ticked, TickPool, Linked, Distinct;
    var slot, next := s.active[k], At(pool, null, s.active, k + 1);
    var left := if kept == [] then [] else front;
    var nexts' := if kept == [] then nexts else nexts[kept[|kept| - 1] := next];
    var head' := if kept == [] then next else head;
    var list := left + kept + s.active[k + 1..];
    TakenOff(pool, s, records, nexts, head, front, kept, k);
    OneTicked(s, records, k);
    if s.pool[slot].kind == Periodic {
      PutInFront(pool, s, records[slot := Ticked(s.pool[slot])], nexts', head', left, kept, k);
    } else {
      StillLinked(pool, nexts', null, list, head', slot, null);
    }
  }

  lemma DistinctPush(list: seq<nat>, t: nat)
    requires Distinct(list) && t !in list
    ensures Distinct([t] + list)
  {
  }

  /** The counters agree with the timers dealt with, and the rest of the walk leads to the specified list. */
  ghost predicate Counted(s: TState, live: int, expired: int, calls: int, front: seq<nat>, kept: seq<nat>, k: nat)
    requires ListOk(s) && k <= |s.active|
  {
    var rest := s.active[k..];
    && Walk(s.pool, front, kept, rest) == Walk(s.pool, [], [], s.active)
    && live == s.activeCount - OneShots(s.pool, s.active) + OneShots(s.pool, rest)
    && expired + |Fired(s.pool, rest)| == s.expiredCount + |Fired(s.pool, s.active)|
    && calls + Callbacks(s.pool, rest) == s.callbackCount + Callbacks(s.pool, s.active)
  }

  lemma CountNone(pool: seq<TimerRec>)
    ensures Fired(pool, []) == [] && OneShots(pool, []) == 0 && Callbacks(pool, []) == 0
  {
  }

  /** What the timer at position `k` adds to the counts and does to the list. */
  lemma CountStep(s: TState, live: int, expired: int, calls: int, front: seq<nat>, kept: seq<nat>, k: nat)
    requires ListOk(s) && k < |s.active| && Counted(s, live, expired, calls, front, kept, k)
    ensures var r, slot, left := s.pool[s.active[k]], s.active[k], if kept == [] then [] else front;
            if !Expires(r) then Counted(s, live, expired, calls, front, kept + [slot], k + 1)
            else Counted(s, live - (if r.kind == Periodic then 0 else 1), expired + 1,
                         calls + (if r.callback then 1 else 0),
                         if r.kind == Periodic then [slot] + left else left, kept, k + 1)
  {
    assert s.active[k..][1..] == s.active[k + 1..];
  }

  lemma TickBegins(pool: seq<Timer>, s: TState, nexts: seq<Timer?>, head: Timer?)
    requires Represents(pool, s, nexts, head)
    ensures ListOk(s) && PoolOk(pool) && InPool(pool, s.active) && head == At(pool, null, s.active, 0)
    ensures Walked(pool, s, s.pool, nexts, head, [], [], 0)
    ensures Counted(s, s.activeCount, s.expiredCount, s.callbackCount, [], [], 0)
  {
    hide Walk, Linked, Distinct, Fired, OneShots, Callbacks;
    Follow(pool, nexts, null, s.active, head, 0);
    assert s.active[0..] == s.active && [] + [] + s.active == s.active && s.active[..0] == [];
    assert s.pool == TickPool(s.pool, s.active[..0]);
  }

  lemma TickEnds(pool: seq<Timer>, s: TState, v: TState, nexts: seq<Timer?>, head: Timer?, front: seq<nat>,
                 kept: seq<nat>)
    requires Walked(pool, s, v.pool, nexts, head, front, kept, |s.active|)
    requires Counted(s, v.activeCount, v.expiredCount, v.callbackCount, front, kept, |s.active|)
    requires v.active == front + kept && v.nextId == s.nextId && v.total == s.total
    ensures v == Tick(s) && Represents(pool, v, nexts, head)
  {
    hide Fired, OneShots, Callbacks, Linked, Distinct, Ticked;
    assert s.active[|s.active|..] == [] && s.active[..|s.active|] == s.active && front + kept + [] == front + kept;
    CountNone(s.pool);
    assert v == Tick(s) by { hide TickPool, ListSound; }
    ListedRun(s);
  }

  /** A tick leaves only running timers on the list. */
  lemma ListedRun(s: TState)
    requires ListSound(s)
    ensures ListSound(Tick(s))
  {
    hide Walk, Fired, OneShots, Callbacks, Distinct;
    var s' := Tick(s);
    WalkFromList(s.pool, s.active);
    assert [] + [] + s.active == s.active;
    WalkDistinct(s.pool, [], [], s.active);
    forall i | 0 <= i < |s'.active|
      ensures s'.active[i] < |s'.pool| && s'.pool[s'.active[i]].id != 0 && s'.pool[s'.active[i]].state == Running
    {
      assert s'.active[i] in s'.active;
    }
  }

  class TimerService {
    const pool: seq<Timer>
    var activeList: Timer?
    var nextTimerId: nat
    var totalTimers: int
    var activeTimers: int
    var expiredCount: nat
    var callbackCount: nat

    /** The active timers in list order, by place in the pool. */
    ghost var active: seq<nat>

    ghost predicate Valid()
      reads this, pool
    {
      Represents(pool, View(), Nexts(pool), activeList)
    }

    ghost function Blocks(): set<Timer> {
      set t | t in pool
    }

    ghost function View(): TState
      reads this, pool
    {
      TState(Records(pool), active, nextTimerId, totalTimers, activeTimers, expiredCount, callbackCount)
    }

    constructor ()
      ensures Valid() && fresh(pool)
      ensures View() == TState(seq(MAX_TIMERS, _ => FREE), [], 1, 0, 0, 0, 0)
    {
      var blocks: seq<Timer> := [];
      while |blocks| < MAX_TIMERS
        invariant |blocks| <= MAX_TIMERS && fresh(blocks)
        invariant forall i :: 0 <= i < |blocks| ==> blocks[i].slot == i && blocks[i].Rec() == FREE
      {
        var t := new Timer(|blocks|);
        blocks := blocks + [t];
      }
      pool := blocks;
      activeList, nextTimerId, totalTimers, activeTimers, expiredCount, callbackCount := null, 1, 0, 0, 0, 0;
      active := [];
    }

    /** Where a block is, and that it is on the list only if it runs. */
    lemma Placed(timer: Timer)
      requires Valid() && timer in pool
      ensures ListSound(View())
      ensures PoolOk(pool) && timer.slot < MAX_TIMERS && pool[timer.slot] == timer
      ensures View().pool[timer.slot] == timer.Rec() && Nexts(pool)[timer.slot] == timer.next
      ensures timer.slot in active ==> timer.id != 0 && timer.state == Running
      ensures Distinct(active) && InPool(pool, active) && Linked(pool, Nexts(pool), null, active, activeList)
      ensures forall j :: 0 <= j < |pool| && j != timer.slot ==> pool[j] != timer
    {
    }

    /** Only the block `timer` has changed. */
    lemma OneBlock(records: seq<TimerRec>, nexts: seq<Timer?>, timer: Timer)
      requires PoolOk(pool) && timer in pool && |records| == |nexts| == |pool|
      requires forall i :: 0 <= i < |pool| && pool[i] != timer ==>
        pool[i].Rec() == records[i] && pool[i].next == nexts[i]
      ensures Records(pool) == records[timer.slot := timer.Rec()]
      ensures Nexts(pool) == nexts[timer.slot := timer.next]
    {
    }

    /** Takes the first unused block of the pool. */
    method AllocateTimer() returns (timer: Timer?)
      requires PoolOk(pool)
      modifies this`nextTimerId, this`totalTimers, Blocks()`id
      ensures var i := FirstFree(old(Records(pool)), 0);
              if i == MAX_TIMERS then timer == null && View() == old(View())
              else
                && timer == pool[i] && totalTimers == old(totalTimers) + 1
                && timer.id == old(nextTimerId) && nextTimerId == old(nextTimerId) + 1
                && forall j :: 0 <= j < MAX_TIMERS && j != i ==> pool[j].id == old(pool[j].id)
    {
      var i := 0;
      while i < MAX_TIMERS
        invariant i <= MAX_TIMERS && FirstFree(Records(pool), 0) == FirstFree(Records(pool), i)
        modifies {}
      {
        if pool[i].id == 0 {
          break;
        }
        i := i + 1;
      }
      if i == MAX_TIMERS {
        return null;
      }
      pool[i].id := nextTimerId;
      nextTimerId := nextTimerId + 1;
      totalTimers := totalTimers + 1;
      return pool[i];
    }

    method Create(kind: Kind, periodMs: nat, callback: bool) returns (timer: Timer?)
      requires Valid()
      modifies this`nextTimerId, this`totalTimers, Blocks()
      ensures Valid()
      ensures View() == TimerSpec.Create(old(View()), kind, periodMs, callback)
      ensures var i := FirstFree(old(View()).pool, 0);
              timer == if !callback || periodMs == 0 || i == MAX_TIMERS then null else pool[i]
    {
      assert PoolOk(pool);
      hide Represents, Linked, ListSound, Records, Nexts;
      ghost var s, nexts := View(), Nexts(pool);
      EachBlock(pool);
      if !callback || periodMs == 0 {
        return null;
      }
      timer := AllocateTimer();
      if timer == null {
        assert Nexts(pool) == nexts;
        return null;
      }
      ghost var i := FirstFree(s.pool, 0);
      timer.Configure(kind, periodMs, callback);
      OneBlock(s.pool, nexts, timer);
      Created(s, nexts, i);
    }

    lemma Created(s: TState, nexts: seq<Timer?>, i: nat)
      requires Represents(pool, s, nexts, activeList) && i < |pool| && s.pool[i].id == 0
      requires View().active == s.active && forall j :: 0 <= j < |pool| && j != i ==> View().pool[j] == s.pool[j]
      ensures Represents(pool, View(), nexts[i := null], activeList)
    {
      hide Linked, Distinct;
      WithoutNone(s.active, i);
      OffTheList(pool, s, nexts, activeList, i, View());
    }

    method Start(timer: Timer?) returns (r: int)
      requires Valid() && (timer != null ==> timer in pool)
      modifies this`activeList, this`activeTimers, this`active, Blocks()`remainingMs, Blocks()`state, Blocks()`next
      ensures Valid()
      ensures r == if timer == null || old(timer.id) == 0 then -1 else 0
      ensures View() == if timer == null then old(View()) else TimerSpec.Start(old(View()), timer.slot)
    {
      hide Linked, ListSound, Represents, Without, Records, Nexts, Distinct;
      if timer != null { Placed(timer); }
      if timer == null || timer.id == 0 {
        return -1;
      }
      if timer.state == Running {
        return 0;
      }
      ghost var s, nexts := View(), Nexts(pool);
      EachBlock(pool);
      Started(pool, s, nexts, activeList, timer.slot);
      timer.remainingMs := timer.periodMs;
      timer.state := Running;
      timer.next := activeList;
      activeList := timer;
      activeTimers := activeTimers + 1;
      active := [timer.slot] + active;
      OneBlock(s.pool, nexts, timer);
      return 0;
    }

    /** An assignment to a next pointer, with what it does to the pool. */
    method SetNext(timer: Timer, next: Timer?)
      requires PoolOk(pool) && timer in pool
      modifies timer`next
      ensures Records(pool) == old(Records(pool)) && Nexts(pool) == old(Nexts(pool))[timer.slot := next]
    {
      timer.next := next;
    }

    /** Takes the timer off the list if it is on it. */
    method Unlink(timer: Timer)
      requires Valid() && timer in pool
      modifies this`activeList, this`active, Blocks()`next
      ensures InPool(pool, active) && Linked(pool, Nexts(pool), null, active, activeList)
      ensures active == Without(old(active), timer.slot) && Records(pool) == old(Records(pool))
      ensures timer.next == old(timer.next)
    {
      hide Linked, ListSound, Represents, Without, Records, Nexts, Distinct;
      Placed(timer);
      Follow(pool, Nexts(pool), null, active, activeList, 0);
      if activeList == timer {
        assert active[0] == timer.slot;
        RemovedAt(pool, Nexts(pool), null, active, activeList, 0);
        WithoutAt(active, 0);
        activeList := timer.next;
        active := active[..0] + active[1..];
      } else {
        ghost var i;
        var prev;
        prev, i := FindPrev(timer);
        if prev != null {
          RemovedAt(pool, Nexts(pool), null, active, activeList, i + 1);
          WithoutAt(active, i + 1);
          SetNext(prev, timer.next);
          active := active[..i + 1] + active[i + 2..];
        } else {
          WithoutNone(active, timer.slot);
        }
      }
    }

    /** The block linked to `timer`, which is not the head. */
    method FindPrev(timer: Timer) returns (prev: Timer?, ghost i: nat)
      requires Valid() && timer in pool && activeList != timer
      ensures prev == null ==> timer.slot !in active
      ensures prev != null ==> prev in pool && prev != timer
      ensures prev != null ==> i + 1 < |active| && active[i] == prev.slot && active[i + 1] == timer.slot
    {
      hide Linked, ListSound, Represents, Without, Records, Nexts, Distinct;
      Placed(timer);
      ghost var nexts := Nexts(pool);
      Follow(pool, nexts, null, active, activeList, 0);
      prev, i := activeList, 0;
      while prev != null && prev.next != timer
        invariant i <= |active| && prev == At(pool, null, active, i)
        invariant timer.slot !in active[..i + if i < |active| then 1 else 0]
        decreases |active| - i
      {
        BlockAt(pool, active[i]);
        Follow(pool, nexts, null, active, activeList, i);
        prev := prev.next;
        i := i + 1;
        assert i < |active| ==> active[..i + 1] == active[..i] + [active[i]];
      }
      if prev != null {
        BlockAt(pool, active[i]);
        Follow(pool, nexts, null, active, activeList, i);
      } else {
        assert active[..i] == active;
      }
    }

    method Stop(timer: Timer?) returns (r: int)
      requires Valid() && (timer != null ==> timer in pool)
      modifies this`activeList, this`activeTimers, this`active, Blocks()`state, Blocks()`next
      ensures Valid()
      ensures r == if timer == null || old(timer.id) == 0 then -1 else 0
      ensures View() == if timer == null then old(View()) else TimerSpec.Stop(old(View()), timer.slot)
    {
      hide Linked, ListSound, Represents, Without, Records, Nexts, Distinct;
      if timer != null { Placed(timer); }
      if timer == null || timer.id == 0 {
        return -1;
      }
      if timer.state != Running {
        return 0;
      }
      ghost var s, t := View(), timer.slot;
      Unlink(timer);
      OffTheList(pool, s, Nexts(pool), activeList, t, TimerSpec.Stop(s, t));
      ghost var nexts := Nexts(pool);
      EachBlock(pool);
      timer.state := Stopped;
      timer.next := null;
      activeTimers := activeTimers - 1;
      OneBlock(s.pool, nexts, timer);
      return 0;
    }

    /** Unlinks the timer once more and clears its block. */
    method FreeTimer(timer: Timer)
      requires Valid() && timer in pool
      modifies this`activeList, this`totalTimers, this`active, Blocks()
      ensures Valid()
      ensures var s := old(View());
              View() == s.(pool := s.pool[timer.slot := FREE], active := Without(s.active, timer.slot),
                total := s.total - 1)
    {
      hide Linked, ListSound, Represents, Without, Records, Nexts, Distinct;
      Placed(timer);
      ghost var s, t := View(), timer.slot;
      ghost var s' := s.(pool := s.pool[t := FREE], active := Without(s.active, t), total := s.total - 1);
      Unlink(timer);
      OffTheList(pool, s, Nexts(pool), activeList, t, s');
      ghost var nexts := Nexts(pool);
      EachBlock(pool);
      timer.Clear();
      totalTimers := totalTimers - 1;
      OneBlock(s.pool, nexts, timer);
    }

    method Delete(timer: Timer?) returns (r: int)
      requires Valid() && (timer != null ==> timer in pool)
      modifies this`activeList, this`activeTimers, this`totalTimers, this`active, Blocks()
      ensures Valid()
      ensures r == if timer == null || old(timer.id) == 0 then -1 else 0
      ensures View() == if timer == null then old(View()) else TimerSpec.Delete(old(View()), timer.slot)
    {
      hide Linked, ListSound, Represents, Without, Records, Nexts, Distinct;
      if timer != null { Placed(timer); }
      if timer == null || timer.id == 0 {
        return -1;
      }
      var _ := Stop(timer);
      FreeTimer(timer);
      return 0;
    }

    method SetPeriod(timer: Timer?, periodMs: nat) returns (r: int)
      requires Valid() && (timer != null ==> timer in pool)
      modifies Blocks()`periodMs, Blocks()`remainingMs
      ensures Valid()
      ensures r == if timer == null || timer.id == 0 || periodMs == 0 then -1 else 0
      ensures View() == if timer == null then old(View()) else TimerSpec.SetPeriod(old(View()), timer.slot, periodMs)
    {
      hide Linked, ListSound, Represents, Without, Records, Nexts, Distinct;
      if timer != null { Placed(timer); }
      if timer == null || timer.id == 0 || periodMs == 0 {
        return -1;
      }
      ghost var s, nexts := View(), Nexts(pool);
      EachBlock(pool);
      timer.periodMs := periodMs;
      if timer.state == Stopped {
        timer.remainingMs := periodMs;
      }
      OneBlock(s.pool, nexts, timer);
      assert nexts[timer.slot := timer.next] == nexts;
      SameList(pool, s, nexts, activeList, View());
      return 0;
    }

    /** A timer that is on the list stays there, stopped: the structure is then broken. */
    method Reset(timer: Timer?) returns (r: int)
      requires Valid() && (timer != null ==> timer in pool)
      modifies Blocks()`state, Blocks()`remainingMs
      ensures timer != null ==> timer.slot < |pool| && pool[timer.slot] == timer
      ensures Valid() <==> timer == null || timer.id == 0 || timer.slot !in old(View().active)
      ensures r == if timer == null || timer.id == 0 then -1 else 0
      ensures View() == if timer == null then old(View()) else TimerSpec.Reset(old(View()), timer.slot)
    {
      hide Linked, ListSound, Represents, Without, Records, Nexts, Distinct;
      if timer != null { Placed(timer); }
      if timer == null || timer.id == 0 {
        return -1;
      }
      ghost var s, nexts := View(), Nexts(pool);
      EachBlock(pool);
      timer.remainingMs := timer.periodMs;
      timer.state := Stopped;
      OneBlock(s.pool, nexts, timer);
      assert nexts[timer.slot := timer.next] == nexts;
      if timer.slot in s.active {
        ListedStopped(pool, View(), nexts, activeList, timer.slot);
      } else {
        SameList(pool, s, nexts, activeList, View());
      }
      return 0;
    }

    /**
     The walk is at `timer`: it counts down, and if it runs out, it comes off the list,
     its callback is made, and a periodic timer goes back in front.
     */
    method Visit(timer: Timer, prev: Timer?, next: Timer?) returns (ranOut: bool)
      requires timer in pool && (prev != null ==> prev in pool && prev != timer) && PoolOk(pool)
      requires timer.state == Running
      modifies this`activeList, this`activeTimers, this`expiredCount, this`callbackCount
      modifies timer`remainingMs, timer`state, Blocks()`next
      ensures timer.Rec() == Ticked(old(timer.Rec())) && ranOut == Expires(old(timer.Rec()))
      ensures expiredCount == old(expiredCount) + if ranOut then 1 else 0
      ensures callbackCount == old(callbackCount) + if ranOut && timer.callback then 1 else 0
      ensures activeTimers == old(activeTimers) - if ranOut && timer.kind == OneShot then 1 else 0
      ensures !ranOut ==> activeList == old(activeList) && forall t :: t in pool ==> t.next == old(t.next)
      ensures ranOut ==>
              var head := if prev == null then next else old(activeList);
              && activeList == (if timer.kind == Periodic then timer else head)
              && timer.next == (if timer.kind == Periodic then head else null)
              && (prev != null ==> prev.next == next)
              && forall t :: t in pool && t != timer && t != prev ==> t.next == old(t.next)
    {
      if timer.remainingMs > 0 {
        timer.remainingMs := timer.remainingMs - 1;
      }
      ranOut := timer.remainingMs == 0;
      if ranOut {
        timer.state := TimerState.Expired;
        expiredCount := expiredCount + 1;
        if prev != null {
          prev.next := next;
        } else {
          activeList := next;
        }
        activeTimers := activeTimers - 1;
        if timer.callback {
          callbackCount := callbackCount + 1;
        }
        if timer.kind == Periodic {
          timer.remainingMs := timer.periodMs;
          timer.state := Running;
          timer.next := activeList;
          activeList := timer;
          activeTimers := activeTimers + 1;
        } else {
          timer.next := null;
        }
      }
    }

    /** The visit on records and pointers. */
    lemma VisitedPool(records: seq<TimerRec>, nexts: seq<Timer?>, timer: Timer, prev: Timer?, next: Timer?,
                      head: Timer?, ranOut: bool)
      requires PoolOk(pool) && timer in pool && (prev != null ==> prev in pool && prev != timer)
      requires |records| == |nexts| == |pool| && timer.Rec() == Ticked(records[timer.slot])
      requires forall i :: 0 <= i < |pool| && pool[i] != timer ==> pool[i].Rec() == records[i]
      requires !ranOut ==> activeList == head && forall i :: 0 <= i < |pool| ==> pool[i].next == nexts[i]
      requires ranOut ==>
               var head' := if prev == null then next else head;
               && activeList == (if timer.kind == Periodic then timer else head')
               && timer.next == (if timer.kind == Periodic then head' else null)
               && (prev != null ==> prev.next == next)
               && forall i :: 0 <= i < |pool| && pool[i] != timer && pool[i] != prev ==> pool[i].next == nexts[i]
      ensures Records(pool) == records[timer.slot := Ticked(records[timer.slot])]
      ensures !ranOut ==> Nexts(pool) == nexts
      ensures ranOut ==>
              var head' := if prev == null then next else head;
              var nexts' := if prev == null then nexts else nexts[prev.slot := next];
              Nexts(pool) == nexts'[timer.slot := if timer.kind == Periodic then head' else null]
    {
      hide Ticked;
    }

    /** The visit, with what it does to the pool. */
    method VisitInPool(timer: Timer, prev: Timer?, next: Timer?) returns (ranOut: bool)
      requires timer in pool && (prev != null ==> prev in pool && prev != timer) && PoolOk(pool)
      requires timer.state == Running
      modifies this`activeList, this`activeTimers, this`expiredCount, this`callbackCount
      modifies timer`remainingMs, timer`state, Blocks()`next
      ensures var r := old(Records(pool))[timer.slot];
              && Records(pool) == old(Records(pool))[timer.slot := Ticked(r)] && ranOut == Expires(r)
              && expiredCount == old(expiredCount) + (if ranOut then 1 else 0)
              && callbackCount == old(callbackCount) + (if ranOut && r.callback then 1 else 0)
              && activeTimers == old(activeTimers) - (if ranOut && r.kind == OneShot then 1 else 0)
              && (!ranOut ==> Nexts(pool) == old(Nexts(pool)) && activeList == old(activeList))
              && (ranOut ==>
                    var head := if prev == null then next else old(activeList);
                    var nexts := if prev == null then old(Nexts(pool)) else old(Nexts(pool))[prev.slot := next];
                    && activeList == (if r.kind == Periodic then timer else head)
                    && Nexts(pool) == nexts[timer.slot := if r.kind == Periodic then head else null])
    {
      ghost var records, nexts, head := Records(pool), Nexts(pool), activeList;
      ranOut := Visit(timer, prev, next);
      VisitedPool(records, nexts, timer, prev, next, head, ranOut);
    }

    /** One tick: counts down every listed timer, and relinks those that run out while walking the list. */
    method Tick()
      requires Valid()
      modifies this`activeList, this`activeTimers, this`expiredCount, this`callbackCount, this`active
      modifies Blocks()`remainingMs, Blocks()`state, Blocks()`next
      ensures Valid()
      ensures View() == TimerSpec.Tick(old(View()))
    {
      ghost var s := View();
      hide Represents, Walked, Counted, Records, Nexts, ListOk, ListSound, Linked, Ticked, Expires, Distinct,
        TickPool, Stays;
      ghost var front: seq<nat>, kept: seq<nat>, k: nat := [], [], 0;
      TickBegins(pool, s, Nexts(pool), activeList);
      var timer := activeList;
      var prev: Timer? := null;
      while timer != null
        invariant ListOk(s) && k <= |s.active| && PoolOk(pool) && InPool(pool, s.active) && InPool(pool, kept)
        invariant Walked(pool, s, Records(pool), Nexts(pool), activeList, front, kept, k)
        invariant Counted(s, activeTimers, expiredCount, callbackCount, front, kept, k)
        invariant timer == At(pool, null, s.active, k)
        invariant prev == if kept == [] then null else pool[kept[|kept| - 1]]
        decreases |s.active| - k
      {
        ghost var slot, left := s.active[k], if kept == [] then [] else front;
        Here(pool, s, Records(pool), Nexts(pool), activeList, front, kept, k);
        BlockAt(pool, slot);
        CountStep(s, activeTimers, expiredCount, callbackCount, front, kept, k);
        var next := timer.next;
        ghost var records, nexts, head := Records(pool), Nexts(pool), activeList;
        var ranOut := VisitInPool(timer, prev, next);
        if ranOut {
          Relinked(pool, s, records, nexts, head, front, kept, k);
          front := if s.pool[slot].kind == Periodic then [slot] + left else left;
        } else {
          Kept(pool, s, records, nexts, head, front, kept, k);
          prev := timer;
          kept := kept + [slot];
        }
        timer := next;
        k := k + 1;
      }
      active := front + kept;
      TickEnds(pool, s, View(), Nexts(pool), activeList, front, kept);
    }
  }
}
