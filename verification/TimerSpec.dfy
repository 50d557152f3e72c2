/**
 Software timers as functions on a pool of records and the list of active ones.
 A timer is named by its place in the pool.
 */
module TimerSpec {
  import opened Links

  const MAX_TIMERS := 16

  datatype Kind = OneShot | Periodic

  datatype TimerState = Stopped | Running | Expired

  datatype TimerRec = TimerRec(id: nat, kind: Kind, state: TimerState, period: nat, remaining: nat, callback: bool)

  /** A pool entry that is not in use. */
  const FREE := TimerRec(0, OneShot, Stopped, 0, 0, false)

  datatype TState = TState(pool: seq<TimerRec>, active: seq<nat>, nextId: nat,
                           total: int, activeCount: int, expiredCount: nat, callbackCount: nat)

  // ----- calls -----

  /** The first free pool entry from `i` on, or the size of the pool. */
  function FirstFree(pool: seq<TimerRec>, i: nat): (r: nat)
    requires i <= |pool|
    ensures i <= r <= |pool|
    ensures r < |pool| ==> pool[r].id == 0
    ensures forall j :: i <= j < r ==> pool[j].id != 0
    decreases |pool| - i
  {
    if i == |pool| || pool[i].id == 0 then i else FirstFree(pool, i + 1)
  }

  function Without(list: seq<nat>, t: nat): seq<nat> {
    if list == [] then [] else if list[0] == t then list[1..] else [list[0]] + Without(list[1..], t)
  }

  function Create(s: TState, kind: Kind, period: nat, callback: bool): TState {
    var i := FirstFree(s.pool, 0);
    if !callback || period == 0 || i == |s.pool| then s
    else s.(pool := s.pool[i := TimerRec(s.nextId, kind, Stopped, period, period, callback)],
            nextId := s.nextId + 1, total := s.total + 1)
  }

  function Start(s: TState, t: nat): TState
    requires t < |s.pool|
  {
    var r := s.pool[t];
    if r.id == 0 || r.state == Running then s
    else s.(pool := s.pool[t := r.(remaining := r.period, state := Running)],
            active := [t] + s.active, activeCount := s.activeCount + 1)
  }

  function Stop(s: TState, t: nat): TState
    requires t < |s.pool|
  {
    var r := s.pool[t];
    if r.id == 0 || r.state != Running then s
    else s.(pool := s.pool[t := r.(state := Stopped)], active := Without(s.active, t), activeCount := s.activeCount - 1)
  }

  /** Resetting puts the state back to stopped and leaves the list alone. */
  function Reset(s: TState, t: nat): TState
    requires t < |s.pool|
  {
    var r := s.pool[t];
    if r.id == 0 then s else s.(pool := s.pool[t := r.(remaining := r.period, state := Stopped)])
  }

  function Delete(s: TState, t: nat): TState
    requires t < |s.pool|
  {
    if s.pool[t].id == 0 then s
    else
      var u := Stop(s, t);
      u.(pool := u.pool[t := FREE], active := Without(u.active, t), total := u.total - 1)
  }

  function SetPeriod(s: TState, t: nat, period: nat): TState
    requires t < |s.pool|
  {
    var r := s.pool[t];
    if r.id == 0 || period == 0 then s
    else s.(pool := s.pool[t := r.(period := period, remaining := if r.state == Stopped then period else r.remaining)])
  }

  // ----- the tick -----

  /** The timer runs out at the next tick. */
  predicate Expires(r: TimerRec) { r.remaining <= 1 }

  /** What a tick does to a timer on the list. */
  function Ticked(r: TimerRec): TimerRec {
    if !Expires(r) then r.(remaining := r.remaining - 1)
    else if r.kind == Periodic then r.(remaining := r.period, state := Running)
    else r.(remaining := 0, state := Expired)
  }

  /**
   The list as the tick's walk leaves it. `front` are the periodic timers put back at
   the head so far, `kept` the timers walked past. While nothing has been kept yet, an
   expiring timer is unlinked by moving the head to its successor, which drops what
   has been put back before.
   */
  function Walk(pool: seq<TimerRec>, front: seq<nat>, kept: seq<nat>, rest: seq<nat>): seq<nat>
    requires forall i :: 0 <= i < |rest| ==> rest[i] < |pool|
    decreases |rest|
  {
    if rest == [] then front + kept
    else
      var t := rest[0];
      if !Expires(pool[t]) then Walk(pool, front, kept + [t], rest[1..])
      else
        var left := if kept == [] then [] else front;
        Walk(pool, if pool[t].kind == Periodic then [t] + left else left, kept, rest[1..])
  }

  /** The timers of a list that run out, in list order: whose callbacks a tick makes. */
  function Fired(pool: seq<TimerRec>, list: seq<nat>): (r: seq<nat>)
    requires forall i :: 0 <= i < |list| ==> list[i] < |pool|
    decreases |list|
  {
    if list == [] then []
    else (if Expires(pool[list[0]]) then [list[0]] else []) + Fired(pool, list[1..])
  }

  ghost predicate ListOk(s: TState) {
    && (forall i :: 0 <= i < |s.active| ==> s.active[i] < |s.pool|)
    && Distinct(s.active)
  }

  /** Only running timers are listed. */
  ghost predicate ListSound(s: TState) {
    ListOk(s) && forall i :: 0 <= i < |s.active| ==> s.pool[s.active[i]].id != 0 && s.pool[s.active[i]].state == Running
  }

  function TickPool(pool: seq<TimerRec>, list: seq<nat>): (r: seq<TimerRec>)
    ensures |r| == |pool|
    ensures forall t :: 0 <= t < |pool| ==> r[t] == if t in list then Ticked(pool[t]) else pool[t]
  {
    seq(|pool|, t requires 0 <= t < |pool| => if t in list then Ticked(pool[t]) else pool[t])
  }

  /** How many of the fired timers are one-shot, and so leave the active count. */
  function OneShots(pool: seq<TimerRec>, list: seq<nat>): nat
    requires forall i :: 0 <= i < |list| ==> list[i] < |pool|
    decreases |list|
  {
    if list == [] then 0
    else (if Expires(pool[list[0]]) && pool[list[0]].kind == OneShot then 1 else 0) + OneShots(pool, list[1..])
  }

  /** How many callbacks a tick makes. */
  function Callbacks(pool: seq<TimerRec>, list: seq<nat>): nat
    requires forall i :: 0 <= i < |list| ==> list[i] < |pool|
    decreases |list|
  {
    if list == [] then 0
    else (if Expires(pool[list[0]]) && pool[list[0]].callback then 1 else 0) + Callbacks(pool, list[1..])
  }

  ghost function Tick(s: TState): TState
    requires ListOk(s)
  {
    TState(TickPool(s.pool, s.active), Walk(s.pool, [], [], s.active), s.nextId, s.total,
           s.activeCount - OneShots(s.pool, s.active),
           s.expiredCount + |Fired(s.pool, s.active)|,
           s.callbackCount + Callbacks(s.pool, s.active))
  }

  // ----- when the walk loses a timer -----

  /** The timers that stay active: not those one-shot timers that run out. */
  predicate Stays(r: TimerRec) { !Expires(r) || r.kind == Periodic }

  /** All timers of the list before position `i` run out. */
  predicate LeadingRun(pool: seq<TimerRec>, list: seq<nat>, i: nat)
    requires forall i :: 0 <= i < |list| ==> list[i] < |pool|
  {
    i <= |list| && forall j :: 0 <= j < i ==> Expires(pool[list[j]])
  }

  /** No periodic timer in the leading run of expiring timers is followed by another one of the run. */
  predicate Clean(pool: seq<TimerRec>, list: seq<nat>)
    requires forall i :: 0 <= i < |list| ==> list[i] < |pool|
  {
    forall i :: 0 <= i < |list| - 1 && LeadingRun(pool, list, i + 2) ==> pool[list[i]].kind != Periodic
  }

  /** Once something has been kept, the walk keeps all that stays and what was put back. */
  lemma {:induction false} WalkKeeps(pool: seq<TimerRec>, front: seq<nat>, kept: seq<nat>, rest: seq<nat>)
    requires forall i :: 0 <= i < |rest| ==> rest[i] < |pool|
    requires kept != []
    ensures forall t :: t in Walk(pool, front, kept, rest) <==>
              t in front || t in kept || (t in rest && Stays(pool[t]))
    decreases |rest|
  {
    if rest != [] {
      var t := rest[0];
      assert rest == [t] + rest[1..];
      if !Expires(pool[t]) {
        WalkKeeps(pool, front, kept + [t], rest[1..]);
      } else {
        WalkKeeps(pool, if pool[t].kind == Periodic then [t] + front else front, kept, rest[1..]);
      }
    }
  }

  lemma WalkFirstKept(pool: seq<TimerRec>, front: seq<nat>, rest: seq<nat>)
    requires forall i :: 0 <= i < |rest| ==> rest[i] < |pool|
    requires rest != [] && !Expires(pool[rest[0]])
    ensures forall t :: t in Walk(pool, front, [], rest) <==> t in front || (t in rest && Stays(pool[t]))
  {
    assert rest == [rest[0]] + rest[1..] && [] + [rest[0]] == [rest[0]];
    WalkKeeps(pool, front, [rest[0]], rest[1..]);
  }

  /** In the leading run only the last timer, if periodic, is put back. */
  lemma {:induction false} WalkLeading(pool: seq<TimerRec>, front: seq<nat>, rest: seq<nat>, n: nat)
    requires forall i :: 0 <= i < |rest| ==> rest[i] < |pool|
    requires LeadingRun(pool, rest, n) && n > 0
    ensures Walk(pool, front, [], rest)
         == Walk(pool, if pool[rest[n - 1]].kind == Periodic then [rest[n - 1]] else [], [], rest[n..])
    decreases n
  {
    var t := rest[0];
    assert Expires(pool[t]);
    var left := if pool[t].kind == Periodic then [t] else [];
    assert [t] + [] == [t];
    if n > 1 {
      assert forall j :: 0 <= j < n - 1 ==> rest[1..][j] == rest[j + 1];
      WalkLeading(pool, left, rest[1..], n - 1);
      assert rest[1..][n - 1..] == rest[n..];
    }
  }

  /** The length of the leading run. */
  function Lead(pool: seq<TimerRec>, list: seq<nat>): (n: nat)
    requires forall i :: 0 <= i < |list| ==> list[i] < |pool|
    ensures LeadingRun(pool, list, n)
    ensures n < |list| ==> !Expires(pool[list[n]])
    decreases |list|
  {
    if list == [] || !Expires(pool[list[0]]) then 0 else 1 + Lead(pool, list[1..])
  }

  /** What a tick leaves on the list, whatever it held: all that stays, except in the leading run. */
  lemma WalkExact(pool: seq<TimerRec>, list: seq<nat>)
    requires forall i :: 0 <= i < |list| ==> list[i] < |pool|
    ensures var n := Lead(pool, list);
            forall t :: t in Walk(pool, [], [], list) <==>
              (n > 0 && t == list[n - 1] && pool[t].kind == Periodic) || (t in list[n..] && Stays(pool[t]))
  {
    var n := Lead(pool, list);
    var front: seq<nat> := if n > 0 && pool[list[n - 1]].kind == Periodic then [list[n - 1]] else [];
    if n > 0 {
      WalkLeading(pool, [], list, n);
    } else {
      assert list[0..] == list;
    }
    var rest := list[n..];
    assert Walk(pool, [], [], list) == Walk(pool, front, [], rest);
    if n < |list| {
      WalkFirstKept(pool, front, rest);
    }
  }

  /**
   A tick keeps every timer that should stay active exactly when no periodic timer of
   the leading expiring run is followed by another expiring timer; otherwise it loses
   that timer from the list, although the timer counts as running.
   */
  lemma TickKeepsAllIff(s: TState)
    requires ListOk(s)
    ensures Clean(s.pool, s.active) <==>
            forall t :: t in s.active && Stays(s.pool[t]) ==> t in Tick(s).active
  {
    hide Walk, OneShots, Callbacks, Fired, TickPool, Lead;
    var pool, list := s.pool, s.active;
    var n := Lead(pool, list);
    WalkExact(pool, list);
    if Clean(pool, list) {
      CleanLead(pool, list, n);
      forall t | t in list && Stays(pool[t]) ensures t in Walk(pool, [], [], list) {
        var i :| 0 <= i < |list| && list[i] == t;
        assert i >= n ==> t in list[n..] by { if i >= n { assert list[n..][i - n] == t; } }
      }
    } else {
      var i :| 0 <= i < |list| - 1 && LeadingRun(pool, list, i + 2) && pool[list[i]].kind == Periodic;
      assert i + 1 < n by { LeadIsLongest(pool, list, i + 2); }
      assert list[i] !in list[n..];
      assert list[i] !in Walk(pool, [], [], list);
    }
  }

  lemma CleanLead(pool: seq<TimerRec>, list: seq<nat>, n: nat)
    requires forall i :: 0 <= i < |list| ==> list[i] < |pool|
    requires Clean(pool, list) && LeadingRun(pool, list, n)
    ensures forall i :: 0 <= i < n - 1 ==> pool[list[i]].kind != Periodic
  {
    forall i | 0 <= i < n - 1 ensures pool[list[i]].kind != Periodic {
      assert LeadingRun(pool, list, i + 2);
    }
  }

  lemma LeadIsLongest(pool: seq<TimerRec>, list: seq<nat>, n: nat)
    requires forall i :: 0 <= i < |list| ==> list[i] < |pool|
    requires LeadingRun(pool, list, n)
    ensures n <= Lead(pool, list)
  {
    var m := Lead(pool, list);
    assert m < |list| ==> !Expires(pool[list[m]]);
  }

  // ----- what the walk does to the list -----

  lemma {:induction false} WalkDistinct(pool: seq<TimerRec>, front: seq<nat>, kept: seq<nat>, rest: seq<nat>)
    requires forall i :: 0 <= i < |rest| ==> rest[i] < |pool|
    requires Distinct(front + kept + rest)
    ensures Distinct(Walk(pool, front, kept, rest))
    decreases |rest|
  {
    if rest == [] {
      assert front + kept + rest == front + kept;
    } else {
      var t := rest[0];
      assert rest == [t] + rest[1..];
      if !Expires(pool[t]) {
        assert front + (kept + [t]) + rest[1..] == front + kept + rest;
        WalkDistinct(pool, front, kept + [t], rest[1..]);
      } else {
        var left := if kept == [] then [] else front;
        var front' := if pool[t].kind == Periodic then [t] + left else left;
        MovedDistinct(front, kept, t, rest[1..], left);
        WalkDistinct(pool, front', kept, rest[1..]);
      }
    }
  }

  lemma MovedDistinct(front: seq<nat>, kept: seq<nat>, t: nat, rest: seq<nat>, left: seq<nat>)
    requires Distinct(front + kept + ([t] + rest)) && (left == front || left == [])
    ensures Distinct([t] + left + kept + rest) && Distinct(left + kept + rest)
  {
    var a := front + kept + ([t] + rest);
    var f, k := |front|, |kept|;
    assert forall i :: 0 <= i < f ==> a[i] == front[i];
    assert forall i :: 0 <= i < k ==> a[f + i] == kept[i];
    assert a[f + k] == t;
    assert forall i :: 0 <= i < |rest| ==> a[f + k + 1 + i] == rest[i];
  }

  /** Nothing comes onto the list that was not on it, or that has run out for good. */
  lemma WalkFromList(pool: seq<TimerRec>, list: seq<nat>)
    requires forall i :: 0 <= i < |list| ==> list[i] < |pool|
    ensures forall t :: t in Walk(pool, [], [], list) ==> t in list && t < |pool| && Stays(pool[t])
  {
    hide Walk;
    WalkExact(pool, list);
    var n := Lead(pool, list);
    forall t | t in Walk(pool, [], [], list) ensures t in list && t < |pool| && Stays(pool[t]) {
      if t in list[n..] {
        var i :| n <= i < |list| && list[i] == t;
      }
    }
  }

  /** Taking a timer off the list takes off exactly that one. */
  lemma {:induction false} WithoutExact(list: seq<nat>, t: nat)
    requires Distinct(list)
    ensures forall x :: x in Without(list, t) <==> x in list && x != t
    ensures Distinct(Without(list, t))
    ensures |Without(list, t)| == |list| - if t in list then 1 else 0
  {
    if list != [] {
      var rest := list[1..];
      assert list == [list[0]] + rest;
      if list[0] == t {
        assert t !in rest;
      } else {
        WithoutExact(rest, t);
        var r := Without(rest, t);
        assert Without(list, t) == [list[0]] + r;
        assert list[0] !in rest;
        forall i, j | 0 <= i < j < |r| + 1 ensures ([list[0]] + r)[i] != ([list[0]] + r)[j] {
          if i == 0 { assert r[j - 1] in r; }
        }
      }
    }
  }

  lemma {:induction false} WithoutNone(list: seq<nat>, t: nat)
    requires t !in list
    ensures Without(list, t) == list
    decreases |list|
  {
    if list != [] {
      assert list == [list[0]] + list[1..];
      WithoutNone(list[1..], t);
    }
  }
}
