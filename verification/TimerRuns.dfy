/**
 Whole runs of the timer service: its structure, and the absolute times at which
 timers run out.

 `due` is the tick at which a running timer runs out. It exists in the proof only;
 the driver counts down.
 */
module TimerRuns {
  import opened Arithmetic
  import opened Links
  import opened TimerSpec

  datatype Sys = Sys(t: TState, now: nat, due: seq<nat>)

  datatype Op =
    | CreateOp(kind: Kind, period: nat, callback: bool)
    | StartOp(timer: nat)
    | StopOp(timer: nat)
    | DeleteOp(timer: nat)
    | SetPeriodOp(timer: nat, period: nat)
    | TickOp

  /** Calls name pool entries, ids do not wrap, and ticks find the list in a state they do not break. */
  ghost predicate Possible(s: Sys, op: Op) {
    && |s.t.pool| == MAX_TIMERS == |s.due|
    && match op {
         case CreateOp(_, _, _) => s.t.nextId < 0xFFFF_FFFF
         case TickOp => ListOk(s.t) && Clean(s.t.pool, s.t.active)
         case StartOp(t) => t < MAX_TIMERS
         case StopOp(t) => t < MAX_TIMERS
         case DeleteOp(t) => t < MAX_TIMERS
         case SetPeriodOp(t, _) => t < MAX_TIMERS
       }
  }

  /** When a timer on the list is due after a tick has made the time `now`. */
  function DueAfter(r: TimerRec, due: nat, now: nat): nat {
    if due == now then now + r.period else due
  }

  /** The absolute-time side of a tick: due timers move on by their period. */
  function DuesAfter(pool: seq<TimerRec>, due: seq<nat>, now: nat): (r: seq<nat>)
    requires |pool| == |due|
    ensures |r| == |due| && forall t :: 0 <= t < |due| ==> r[t] == DueAfter(pool[t], due[t], now)
  {
    seq(|due|, t requires 0 <= t < |due| => DueAfter(pool[t], due[t], now))
  }

  ghost function After(s: Sys, op: Op): Sys
    requires Possible(s, op)
  {
    match op
    case CreateOp(k, p, c) => s.(t := Create(s.t, k, p, c))
    case StartOp(t) =>
      Sys(Start(s.t, t), s.now,
          if s.t.pool[t].state == Running then s.due else s.due[t := s.now + s.t.pool[t].period])
    case StopOp(t) => s.(t := Stop(s.t, t))
    case DeleteOp(t) => s.(t := Delete(s.t, t))
    case SetPeriodOp(t, p) => s.(t := SetPeriod(s.t, t, p))
    case TickOp => Sys(Tick(s.t), s.now + 1, DuesAfter(s.t.pool, s.due, s.now + 1))
  }

  // ----- the invariant -----

  function InUse(pool: seq<TimerRec>, n: nat): nat
    requires n <= |pool|
  {
    if n == 0 then 0 else InUse(pool, n - 1) + if pool[n - 1].id != 0 then 1 else 0
  }

  ghost predicate RecOk(r: TimerRec, due: nat, now: nat, nextId: nat) {
    && r.id < nextId
    && (r.id == 0 ==> r == FREE)
    && (r.id != 0 ==> r.period > 0 && r.callback)
    && (r.state == Running ==> r.remaining > 0 && due == now + r.remaining)
  }

  ghost predicate IdsApart(pool: seq<TimerRec>) {
    forall i, j :: 0 <= i < j < |pool| && pool[i].id != 0 ==> pool[i].id != pool[j].id
  }

  /** The list holds exactly the running timers, each once. */
  ghost predicate ListIsRunning(t: TState) {
    ListOk(t) && forall i :: 0 <= i < |t.pool| ==> (i in t.active <==> t.pool[i].state == Running)
  }

  ghost predicate Inv(s: Sys) {
    && |s.t.pool| == MAX_TIMERS == |s.due| && s.t.nextId >= 1
    && ListIsRunning(s.t)
    && s.t.activeCount == |s.t.active|
    && s.t.total == InUse(s.t.pool, MAX_TIMERS)
    && IdsApart(s.t.pool)
    && forall i :: 0 <= i < MAX_TIMERS ==> RecOk(s.t.pool[i], s.due[i], s.now, s.t.nextId)
  }

  // ----- counting -----

  lemma {:induction false} InUsePut(pool: seq<TimerRec>, i: nat, r: TimerRec, n: nat)
    requires i < |pool| && n <= |pool|
    ensures InUse(pool[i := r], n) == InUse(pool, n)
      + (if i < n && r.id != 0 then 1 else 0) - (if i < n && pool[i].id != 0 then 1 else 0)
  {
    if n > 0 {
      InUsePut(pool, i, r, n - 1);
    }
  }

  lemma {:induction false} InUseSame(a: seq<TimerRec>, b: seq<TimerRec>, n: nat)
    requires n <= |a| == |b| && forall i :: 0 <= i < |a| ==> a[i].id == b[i].id
    ensures InUse(a, n) == InUse(b, n)
  {
    if n > 0 {
      InUseSame(a, b, n - 1);
    }
  }

  // ----- the tick -----

  /** A tick takes exactly the one-shot timers that run out off a list it does not break. */
  lemma {:induction false} WalkCount(pool: seq<TimerRec>, front: seq<nat>, kept: seq<nat>, rest: seq<nat>)
    requires forall i :: 0 <= i < |rest| ==> rest[i] < |pool|
    requires kept != []
    ensures |Walk(pool, front, kept, rest)| == |front| + |kept| + |rest| - OneShots(pool, rest)
    decreases |rest|
  {
    if rest != [] {
      var t := rest[0];
      if !Expires(pool[t]) {
        WalkCount(pool, front, kept + [t], rest[1..]);
      } else {
        WalkCount(pool, if pool[t].kind == Periodic then [t] + front else front, kept, rest[1..]);
      }
    }
  }

  lemma {:induction false} CleanCount(pool: seq<TimerRec>, rest: seq<nat>)
    requires forall i :: 0 <= i < |rest| ==> rest[i] < |pool|
    requires Clean(pool, rest)
    ensures |Walk(pool, [], [], rest)| == |rest| - OneShots(pool, rest)
    decreases |rest|
  {
    if rest != [] {
      var t, tail := rest[0], rest[1..];
      assert rest == [t] + tail && [] + [t] == [t];
      if !Expires(pool[t]) {
        WalkCount(pool, [], [t], tail);
      } else if pool[t].kind == OneShot {
        CleanTail(pool, rest);
        CleanCount(pool, tail);
      } else {
        assert [t] + [] == [t];
        if tail != [] {
          assert !Expires(pool[tail[0]]) by { SecondStays(pool, rest); }
          WalkCount(pool, [t], [tail[0]], tail[1..]);
          assert [] + [tail[0]] == [tail[0]];
        }
      }
    }
  }

  lemma SecondStays(pool: seq<TimerRec>, rest: seq<nat>)
    requires forall i :: 0 <= i < |rest| ==> rest[i] < |pool|
    requires Clean(pool, rest) && |rest| > 1 && Expires(pool[rest[0]]) && pool[rest[0]].kind == Periodic
    ensures !Expires(pool[rest[1]])
  {
    assert LeadingRun(pool, rest, 2) <==> Expires(pool[rest[1]]);
  }

  lemma CleanTail(pool: seq<TimerRec>, rest: seq<nat>)
    requires forall i :: 0 <= i < |rest| ==> rest[i] < |pool|
    requires Clean(pool, rest) && |rest| > 0 && Expires(pool[rest[0]])
    ensures Clean(pool, rest[1..])
  {
    var tail := rest[1..];
    forall i | 0 <= i < |tail| - 1 && LeadingRun(pool, tail, i + 2) ensures pool[tail[i]].kind != Periodic {
      assert LeadingRun(pool, rest, i + 3) by {
        forall j | 0 <= j < i + 3 ensures Expires(pool[rest[j]]) {
          if j > 0 { assert rest[j] == tail[j - 1]; }
        }
      }
      assert tail[i] == rest[i + 1];
    }
  }

  /** A tick fires each timer that is due once, and no other. */
  lemma {:induction false} FiredExact(pool: seq<TimerRec>, list: seq<nat>)
    requires forall i :: 0 <= i < |list| ==> list[i] < |pool|
    requires Distinct(list)
    ensures forall t :: t in Fired(pool, list) <==> t in list && Expires(pool[t])
    ensures Distinct(Fired(pool, list))
    decreases |list|
  {
    if list != [] {
      var t, rest := list[0], list[1..];
      assert list == [t] + rest;
      FiredExact(pool, rest);
      var r := Fired(pool, rest);
      if Expires(pool[t]) {
        assert Fired(pool, list) == [t] + r;
        assert t !in rest;
        forall i, j | 0 <= i < j < |r| + 1 ensures ([t] + r)[i] != ([t] + r)[j] {
          if i == 0 { assert r[j - 1] in r; }
        }
      } else {
        assert Fired(pool, list) == [] + r == r;
      }
    }
  }

  /** The list after a tick that does not break it. */
  lemma TickList(pool: seq<TimerRec>, list: seq<nat>)
    requires forall i :: 0 <= i < |list| ==> list[i] < |pool|
    requires Distinct(list) && Clean(pool, list)
    ensures var r := Walk(pool, [], [], list);
            && Distinct(r) && |r| == |list| - OneShots(pool, list)
            && (forall t :: t in r <==> t in list && t < |pool| && Stays(pool[t]))
            && forall i :: 0 <= i < |r| ==> r[i] < |pool|
  {
    hide Walk, OneShots, Clean, Lead;
    CleanCount(pool, list);
    assert [] + [] + list == list;
    WalkDistinct(pool, [], [], list);
    WalkFromList(pool, list);
    TickKeepsAllIff(TState(pool, list, 0, 0, 0, 0, 0));
    var r := Walk(pool, [], [], list);
    forall i | 0 <= i < |r| ensures r[i] < |pool| {
      assert r[i] in r;
    }
  }

  lemma TickRec(r: TimerRec, due: nat, now: nat, nextId: nat)
    requires RecOk(r, due, now, nextId) && r.state == Running
    ensures RecOk(Ticked(r), DueAfter(r, due, now + 1), now + 1, nextId)
    ensures Ticked(r).id == r.id
    ensures Stays(r) <==> Ticked(r).state == Running
    ensures Expires(r) <==> due == now + 1
  {
  }

  /** A tick fires exactly the running timers that are due, each once. */
  lemma TickFires(s: Sys)
    requires Inv(s)
    ensures forall i :: 0 <= i < MAX_TIMERS ==>
      (i in Fired(s.t.pool, s.t.active) <==> s.t.pool[i].state == Running && s.due[i] == s.now + 1)
    ensures Distinct(Fired(s.t.pool, s.t.active))
  {
    hide Fired, RecOk, InUse, Ticked, Stays, DueAfter, Expires;
    var pool, list := s.t.pool, s.t.active;
    FiredExact(pool, list);
    forall i | 0 <= i < MAX_TIMERS
      ensures i in Fired(pool, list) <==> pool[i].state == Running && s.due[i] == s.now + 1
    {
      assert RecOk(pool[i], s.due[i], s.now, s.t.nextId);
      if pool[i].state == Running {
        TickRec(pool[i], s.due[i], s.now, s.t.nextId);
      }
    }
  }

  lemma TickKeepsRecs(s: Sys)
    requires Inv(s) && Possible(s, TickOp)
    ensures var s' := After(s, TickOp);
            forall i :: 0 <= i < MAX_TIMERS ==>
              && RecOk(s'.t.pool[i], s'.due[i], s'.now, s'.t.nextId)
              && (s'.t.pool[i].state == Running <==> s.t.pool[i].state == Running && Stays(s.t.pool[i]))
              && s'.t.pool[i].id == s.t.pool[i].id
  {
    hide Walk, OneShots, Callbacks, Fired, Clean, Lead, RecOk, Ticked, DueAfter, Expires, Stays, InUse;
    var s' := After(s, TickOp);
    var pool := s.t.pool;
    forall i | 0 <= i < MAX_TIMERS
      ensures RecOk(s'.t.pool[i], s'.due[i], s'.now, s'.t.nextId)
      ensures s'.t.pool[i].state == Running <==> pool[i].state == Running && Stays(pool[i])
      ensures s'.t.pool[i].id == pool[i].id
    {
      assert RecOk(pool[i], s.due[i], s.now, s.t.nextId);
      if pool[i].state == Running {
        TickRec(pool[i], s.due[i], s.now, s.t.nextId);
      } else {
        IdleRec(pool[i], s.due[i], s'.due[i], s.now, s.t.nextId);
      }
    }
  }

  lemma TickKeepsInv(s: Sys)
    requires Inv(s) && Possible(s, TickOp)
    ensures Inv(After(s, TickOp))
  {
    hide Walk, OneShots, Callbacks, Fired, Clean, Lead, RecOk, Stays, InUse, TickPool, DuesAfter;
    var s' := After(s, TickOp);
    TickList(s.t.pool, s.t.active);
    TickKeepsRecs(s);
    InUseSame(s.t.pool, s'.t.pool, MAX_TIMERS);
  }

  lemma IdleRec(r: TimerRec, due: nat, due': nat, now: nat, nextId: nat)
    requires RecOk(r, due, now, nextId) && r.state != Running
    ensures RecOk(r, due', now + 1, nextId)
  {
  }

  // ----- calls -----

  lemma CreateKeepsInv(s: Sys, kind: Kind, period: nat, callback: bool)
    requires Inv(s) && Possible(s, CreateOp(kind, period, callback))
    ensures Inv(After(s, CreateOp(kind, period, callback)))
  {
    hide InUse;
    var i := FirstFree(s.t.pool, 0);
    if callback && period > 0 && i < MAX_TIMERS {
      var r := TimerRec(s.t.nextId, kind, Stopped, period, period, callback);
      assert RecOk(s.t.pool[i], s.due[i], s.now, s.t.nextId);
      InUsePut(s.t.pool, i, r, MAX_TIMERS);
      forall j | 0 <= j < MAX_TIMERS
        ensures s.t.pool[j].id < s.t.nextId && RecOk(s.t.pool[j], s.due[j], s.now, s.t.nextId)
      {
      }
    }
  }

  lemma StartKeepsInv(s: Sys, t: nat)
    requires Inv(s) && Possible(s, StartOp(t))
    ensures Inv(After(s, StartOp(t)))
  {
    hide InUse;
    var r := s.t.pool[t];
    assert RecOk(r, s.due[t], s.now, s.t.nextId);
    InUsePut(s.t.pool, t, r.(remaining := r.period, state := Running), MAX_TIMERS);
  }

  lemma StopKeepsInv(s: Sys, t: nat)
    requires Inv(s) && Possible(s, StopOp(t))
    ensures Inv(After(s, StopOp(t)))
    ensures t !in After(s, StopOp(t)).t.active
  {
    hide InUse, Without;
    var r := s.t.pool[t];
    assert RecOk(r, s.due[t], s.now, s.t.nextId);
    WithoutExact(s.t.active, t);
    InUsePut(s.t.pool, t, r.(state := Stopped), MAX_TIMERS);
    forall i | 0 <= i < |Without(s.t.active, t)| ensures Without(s.t.active, t)[i] < MAX_TIMERS {
      assert Without(s.t.active, t)[i] in Without(s.t.active, t);
    }
  }

  lemma DeleteKeepsInv(s: Sys, t: nat)
    requires Inv(s) && Possible(s, DeleteOp(t))
    ensures Inv(After(s, DeleteOp(t)))
  {
    hide InUse, Without;
    StopKeepsInv(s, t);
    if s.t.pool[t].id != 0 {
      var u := Stop(s.t, t);
      WithoutNone(u.active, t);
      InUsePut(u.pool, t, FREE, MAX_TIMERS);
      assert forall j :: 0 <= j < MAX_TIMERS ==> RecOk(u.pool[j], s.due[j], s.now, u.nextId);
    }
  }

  lemma SetPeriodKeepsInv(s: Sys, t: nat, p: nat)
    requires Inv(s) && Possible(s, SetPeriodOp(t, p))
    ensures Inv(After(s, SetPeriodOp(t, p)))
  {
    hide InUse;
    var r := s.t.pool[t];
    assert RecOk(r, s.due[t], s.now, s.t.nextId);
    InUsePut(s.t.pool, t, r.(period := p, remaining := if r.state == Stopped then p else r.remaining), MAX_TIMERS);
  }

  /** Resetting a timer keeps the structure exactly when the timer is not running: it is not taken off the list. */
  lemma ResetKeepsInvIff(s: Sys, t: nat)
    requires Inv(s) && t < MAX_TIMERS
    ensures Inv(s.(t := Reset(s.t, t))) <==> s.t.pool[t].state != Running
  {
    hide InUse;
    var r := s.t.pool[t];
    assert RecOk(r, s.due[t], s.now, s.t.nextId);
    InUsePut(s.t.pool, t, r.(remaining := r.period, state := Stopped), MAX_TIMERS);
    if r.state == Running {
      assert t in Reset(s.t, t).active && Reset(s.t, t).pool[t].state == Stopped;
    }
  }

  /**
   Starting a timer again after it was reset while running puts it on the list a second
   time; if it headed the list, it is then followed by itself.
   */
  lemma ResetThenStart(s: Sys, t: nat)
    requires Inv(s) && t < MAX_TIMERS && s.t.pool[t].state == Running
    ensures var u := Start(Reset(s.t, t), t);
            && u.active == [t] + s.t.active && !ListOk(u)
            && (s.t.active[0] == t ==> |u.active| > 1 && u.active[0] == u.active[1] == t)
  {
    var u := Start(Reset(s.t, t), t);
    assert RecOk(s.t.pool[t], s.due[t], s.now, s.t.nextId);
    var i :| 0 <= i < |s.t.active| && s.t.active[i] == t;
    assert u.active[0] == u.active[i + 1] == t;
  }

  lemma StepKeepsInv(s: Sys, op: Op)
    requires Inv(s) && Possible(s, op)
    ensures Inv(After(s, op))
  {
    hide Inv, After, Possible;
    match op {
      case CreateOp(k, p, c) => CreateKeepsInv(s, k, p, c);
      case StartOp(t) => StartKeepsInv(s, t);
      case StopOp(t) => StopKeepsInv(s, t);
      case DeleteOp(t) => DeleteKeepsInv(s, t);
      case SetPeriodOp(t, p) => SetPeriodKeepsInv(s, t, p);
      case TickOp => TickKeepsInv(s);
    }
  }

  // ----- whole runs -----

  ghost predicate Happens(s: Sys, op: Op, s': Sys) { Possible(s, op) && s' == After(s, op) }

  ghost predicate RunOf(ss: seq<Sys>, ops: seq<Op>) {
    && |ss| == |ops| + 1
    && forall i, j :: 0 <= i < |ops| && j == i + 1 ==> Happens(ss[i], ops[i], ss[j])
  }

  function Booted(): Sys {
    Sys(TState(seq(MAX_TIMERS, _ => FREE), [], 1, 0, 0, 0, 0), 0, seq(MAX_TIMERS, _ => 0))
  }

  lemma BootedInv()
    ensures Inv(Booted())
  {
    NoneInUse(Booted().t.pool, MAX_TIMERS);
  }

  lemma {:induction false} NoneInUse(pool: seq<TimerRec>, n: nat)
    requires n <= |pool| && forall i :: 0 <= i < |pool| ==> pool[i].id == 0
    ensures InUse(pool, n) == 0
  {
    if n > 0 {
      NoneInUse(pool, n - 1);
    }
  }

  /** The structure of the timer service in every state of every run. */
  lemma {:induction false} StructureOverRuns(ss: seq<Sys>, ops: seq<Op>, n: nat)
    requires RunOf(ss, ops) && Inv(ss[0]) && n < |ss|
    ensures Inv(ss[n])
    decreases n
  {
    hide Inv, After, Possible;
    if n > 0 {
      StructureOverRuns(ss, ops, n - 1);
      assert Happens(ss[n - 1], ops[n - 1], ss[n]);
      StepKeepsInv(ss[n - 1], ops[n - 1]);
    }
  }

  /** The call names timer `t`. */
  predicate Names(op: Op, t: nat) {
    match op
    case CreateOp(_, _, _) => false
    case TickOp => false
    case StartOp(u) => u == t
    case StopOp(u) => u == t
    case DeleteOp(u) => u == t
    case SetPeriodOp(u, _) => u == t
  }

  /** The first tick after `now` that lies a whole number of periods after `start`. */
  function NextDue(start: nat, p: nat, now: nat): nat
    requires p > 0 && start <= now
  {
    start + ((now - start) / p + 1) * p
  }

  /** Where a timer of period `p`, started at tick `start`, must be at tick `now`. */
  ghost predicate OnSchedule(r: TimerRec, due: nat, start: nat, p: nat, now: nat) {
    && r.period == p && r.id != 0 && start <= now && p > 0
    && match r.kind {
         case Periodic => r.state == Running && due == NextDue(start, p, now)
         case OneShot => if now < start + p then r.state == Running && due == start + p else r.state == Expired
       }
  }

  /** The tick that makes the time `now` is one at which the timer must fire. */
  predicate FireTime(kind: Kind, start: nat, p: nat, now: nat)
    requires p > 0
  {
    now > start && match kind { case Periodic => (now - start) % p == 0 case OneShot => now == start + p }
  }

  lemma NextDueStep(start: nat, p: nat, now: nat)
    requires p > 0 && start <= now
    ensures NextDue(start, p, now) == now + 1 <==> (now + 1 - start) % p == 0
    ensures NextDue(start, p, now + 1) == if (now + 1 - start) % p == 0 then now + 1 + p else NextDue(start, p, now)
  {
    var x := now - start;
    DivNext(x, p);
    NextMultiple(x / p, x % p, p);
    assert x == x / p * p + x % p;
  }

  lemma NextMultiple(q: nat, r: nat, p: nat)
    requires r < p
    ensures (q + 1) * p == q * p + p && (q + 2) * p == (q + 1) * p + p
    ensures (q + 1) * p == q * p + r + 1 <==> r + 1 == p
  {
  }

  /** Calls on other timers leave the schedule alone, and a tick moves along it. */
  lemma StepOnSchedule(s: Sys, op: Op, t: nat, start: nat, p: nat)
    requires Inv(s) && Possible(s, op) && t < MAX_TIMERS && p > 0
    requires OnSchedule(s.t.pool[t], s.due[t], start, p, s.now) && !Names(op, t)
    ensures var s' := After(s, op);
            && |s'.t.pool| == MAX_TIMERS == |s'.due|
            && s'.t.pool[t].kind == s.t.pool[t].kind
            && OnSchedule(s'.t.pool[t], s'.due[t], start, p, s'.now)
    ensures op == TickOp ==> (t in Fired(s.t.pool, s.t.active) <==> FireTime(s.t.pool[t].kind, start, p, s.now + 1))
  {
    hide Walk, Fired, OneShots, Callbacks, Clean, InUse, NextDue;
    assert RecOk(s.t.pool[t], s.due[t], s.now, s.t.nextId);
    if op == TickOp {
      TickFires(s);
      RecOnSchedule(s.t.pool[t], s.due[t], s.now, s.t.nextId, start, p);
    }
  }

  lemma RecOnSchedule(r: TimerRec, due: nat, now: nat, nextId: nat, start: nat, p: nat)
    requires RecOk(r, due, now, nextId) && OnSchedule(r, due, start, p, now)
    ensures var r' := if r.state == Running then Ticked(r) else r;
            OnSchedule(r', DueAfter(r, due, now + 1), start, p, now + 1) && r'.kind == r.kind
    ensures (r.state == Running && due == now + 1) <==> FireTime(r.kind, start, p, now + 1)
  {
    hide NextDue;
    NextDueStep(start, p, now);
  }

  /**
   A timer of period `p` that is started at tick `start` runs out exactly at
   `start + p` if it is one-shot and at `start + k * p` for every `k` if it is
   periodic, as long as no call names it, whatever happens to other timers.
   */
  lemma {:induction false} FiresOnSchedule(ss: seq<Sys>, ops: seq<Op>, t: nat, n: nat)
    requires RunOf(ss, ops) && Inv(ss[0]) && t < MAX_TIMERS && 1 <= n < |ss|
    requires ops[0] == StartOp(t) && ss[0].t.pool[t].id != 0 && ss[0].t.pool[t].state != Running
    requires forall i :: 1 <= i < n ==> !Names(ops[i], t)
    ensures Inv(ss[n]) && ss[n].t.pool[t].kind == ss[0].t.pool[t].kind && ss[0].t.pool[t].period > 0
    ensures OnSchedule(ss[n].t.pool[t], ss[n].due[t], ss[0].now, ss[0].t.pool[t].period, ss[n].now)
    ensures n < |ops| && ops[n] == TickOp ==>
      (t in Fired(ss[n].t.pool, ss[n].t.active)
       <==> FireTime(ss[0].t.pool[t].kind, ss[0].now, ss[0].t.pool[t].period, ss[n].now + 1))
    decreases n
  {
    hide Inv, After, Possible, OnSchedule, Fired, FireTime;
    StructureOverRuns(ss, ops, 0);
    StructureOverRuns(ss, ops, n - 1);
    assert Happens(ss[n - 1], ops[n - 1], ss[n]);
    StartsOnSchedule(ss[0], t);
    var start, p := ss[0].now, ss[0].t.pool[t].period;
    if n > 1 {
      FiresOnSchedule(ss, ops, t, n - 1);
      StepOnSchedule(ss[n - 1], ops[n - 1], t, start, p);
    }
    StructureOverRuns(ss, ops, n);
    if n < |ops| && ops[n] == TickOp {
      assert Happens(ss[n], ops[n], ss[n + 1]);
      StepOnSchedule(ss[n], TickOp, t, start, p);
    }
  }

  lemma StartsOnSchedule(s: Sys, t: nat)
    requires Inv(s) && t < MAX_TIMERS && s.t.pool[t].id != 0 && s.t.pool[t].state != Running
    ensures s.t.pool[t].period > 0 && Possible(s, StartOp(t))
    ensures var s' := After(s, StartOp(t));
            && |s'.t.pool| == MAX_TIMERS == |s'.due|
            && s'.t.pool[t].kind == s.t.pool[t].kind
            && OnSchedule(s'.t.pool[t], s'.due[t], s.now, s.t.pool[t].period, s'.now)
  {
    assert RecOk(s.t.pool[t], s.due[t], s.now, s.t.nextId);
    var p := s.t.pool[t].period;
    assert NextDue(s.now, p, s.now) == s.now + p by { DivOfSum(0, 0, p); }
  }

  // ----- from the start -----

  lemma RunSuffix(ss: seq<Sys>, ops: seq<Op>, i: nat)
    requires RunOf(ss, ops) && i < |ss|
    ensures RunOf(ss[i..], ops[i..])
  {
    hide Happens;
    assert forall k :: 0 <= k < |ss| - i ==> ss[i..][k] == ss[i + k];
    assert forall k :: 0 <= k < |ops| - i ==> ops[i..][k] == ops[i + k];
  }

  lemma StructureFromBoot(ss: seq<Sys>, ops: seq<Op>, n: nat)
    requires RunOf(ss, ops) && ss[0] == Booted() && n < |ss|
    ensures Inv(ss[n])
  {
    BootedInv();
    StructureOverRuns(ss, ops, n);
  }

  /**
   The firing times in a run from the start, of a timer that the run itself has created
   and starts in step `i`.
   */
  lemma FiresFromBoot(ss: seq<Sys>, ops: seq<Op>, i: nat, t: nat, n: nat)
    requires RunOf(ss, ops) && ss[0] == Booted() && i < n < |ss|
    requires ops[i] == StartOp(t) && t < |ss[i].t.pool| && ss[i].t.pool[t].id != 0 && ss[i].t.pool[t].state != Running
    requires forall k :: i < k < n ==> !Names(ops[k], t)
    ensures Inv(ss[n]) && t < MAX_TIMERS
    ensures ss[n].t.pool[t].kind == ss[i].t.pool[t].kind && ss[i].t.pool[t].period > 0
    ensures OnSchedule(ss[n].t.pool[t], ss[n].due[t], ss[i].now, ss[i].t.pool[t].period, ss[n].now)
    ensures n < |ops| && ops[n] == TickOp ==>
      (t in Fired(ss[n].t.pool, ss[n].t.active)
       <==> FireTime(ss[i].t.pool[t].kind, ss[i].now, ss[i].t.pool[t].period, ss[n].now + 1))
  {
    hide After, Possible, OnSchedule, Fired, FireTime;
    StructureFromBoot(ss, ops, i);
    RunSuffix(ss, ops, i);
    FiresOnSchedule(ss[i..], ops[i..], t, n - i);
  }

  /**
   A run from the start after which a tick loses a timer: two periodic timers of period
   one are created and started. The tick fires both, and puts back only the one started
   first; the other stays off the list, counted as running.
   */
  lemma TimerLost()
    ensures var os := [CreateOp(Periodic, 1, true), CreateOp(Periodic, 1, true), StartOp(0), StartOp(1)];
            exists s1, s2, s3, s4 :: RunOf([Booted(), s1, s2, s3, s4], os) && Inv(s4)
              && Fired(s4.t.pool, s4.t.active) == [1, 0]
              && var u := Tick(s4.t);
                 u.active == [0] && u.activeCount == 2 && |u.pool| == MAX_TIMERS
                 && u.pool[1].state == Running && u.pool[1].remaining == 1
  {
    hide InUse, IdsApart;
    var os := [CreateOp(Periodic, 1, true), CreateOp(Periodic, 1, true), StartOp(0), StartOp(1)];
    var s0 := Booted();
    var s1 := After(s0, os[0]);
    var s2 := After(s1, os[1]);
    var s3 := After(s2, os[2]);
    var s4 := After(s3, os[3]);
    var ss := [s0, s1, s2, s3, s4];
    assert Happens(s0, os[0], s1) && Happens(s1, os[1], s2);
    assert Happens(s2, os[2], s3) && Happens(s3, os[3], s4);
    assert RunOf(ss, os);
    StructureFromBoot(ss, os, 4);
    assert s4.t.active == [1, 0];
    TwoExpire(s4.t.pool, 1, 0);
  }

  /** The walk over two periodic timers that both run out keeps the second. */
  lemma TwoExpire(pool: seq<TimerRec>, a: nat, b: nat)
    requires a < |pool| && b < |pool| && Expires(pool[a]) && Expires(pool[b])
    requires pool[a].kind == pool[b].kind == Periodic
    ensures Walk(pool, [], [], [a, b]) == [b] && Fired(pool, [a, b]) == [a, b] && OneShots(pool, [a, b]) == 0
  {
    var list := [a, b];
    assert list[1..] == [b] && [b][1..] == [];
    assert [a] + [] == [a] && [b] + [] == [b];
    assert Walk(pool, [], [], list) == Walk(pool, [a], [], [b]) == Walk(pool, [b], [], []);
    assert Fired(pool, []) == [] && OneShots(pool, []) == 0;
    assert Fired(pool, [b]) == [b] + [] && OneShots(pool, [b]) == 0;
    assert list[0] == a && Fired(pool, list) == [a] + Fired(pool, list[1..]);
    assert OneShots(pool, list) == OneShots(pool, list[1..]);
  }

  /** A run from the start: a timer is created and started, then reset and started again, and is followed by itself. */
  lemma FollowedByItself()
    ensures exists s1, s2 :: RunOf([Booted(), s1, s2], [CreateOp(Periodic, 5, true), StartOp(0)]) && Inv(s2)
              && !ListIsRunning(Reset(s2.t, 0)) && Start(Reset(s2.t, 0), 0).active == [0, 0]
  {
    hide InUse, IdsApart;
    var os := [CreateOp(Periodic, 5, true), StartOp(0)];
    var s0 := Booted();
    var s1 := After(s0, os[0]);
    var s2 := After(s1, os[1]);
    assert Happens(s0, os[0], s1) && Happens(s1, os[1], s2);
    assert RunOf([s0, s1, s2], os);
    StructureFromBoot([s0, s1, s2], os, 2);
    assert s2.t.active == [0];
    ResetThenStart(s2, 0);
    assert 0 in Reset(s2.t, 0).active && Reset(s2.t, 0).pool[0].state == Stopped;
  }

  // ----- what was asked for -----

  /** The call of step `c` takes entry `t`, which was free. */
  ghost predicate Takes(ss: seq<Sys>, ops: seq<Op>, c: nat, t: nat)
    requires |ss| == |ops| + 1 && c < |ops|
  {
    && ops[c].CreateOp?
    && t < |ss[c].t.pool| == |ss[c + 1].t.pool|
    && ss[c].t.pool[t].id == 0 && ss[c + 1].t.pool[t].id != 0
  }

  /**
   A create call takes an entry exactly if it names a callback and a period and some entry
   is free, and then exactly one; all other entries stay as they are.
   */
  lemma CreateTakes(ss: seq<Sys>, ops: seq<Op>, c: nat)
    requires RunOf(ss, ops) && ss[0] == Booted() && c < |ops| && ops[c].CreateOp?
    ensures |ss[c].t.pool| == |ss[c + 1].t.pool| == MAX_TIMERS
    ensures (exists t :: Takes(ss, ops, c, t)) <==>
      ops[c].callback && ops[c].period > 0 && exists t :: 0 <= t < MAX_TIMERS && ss[c].t.pool[t].id == 0
    ensures forall t, u :: Takes(ss, ops, c, t) && Takes(ss, ops, c, u) ==> t == u
    ensures forall t :: 0 <= t < MAX_TIMERS && !Takes(ss, ops, c, t) ==> ss[c + 1].t.pool[t] == ss[c].t.pool[t]
  {
    hide Inv, Clean, ListOk;
    StructureFromBoot(ss, ops, c);
    assert Happens(ss[c], ops[c], ss[c + 1]);
    NextIdPositive(ss[c]);
    var s, i := ss[c].t, FirstFree(ss[c].t.pool, 0);
    if ops[c].callback && ops[c].period > 0 && i < MAX_TIMERS {
      assert Takes(ss, ops, c, i);
    }
  }

  lemma NextIdPositive(s: Sys)
    requires Inv(s)
    ensures s.t.nextId >= 1
  {
  }

  /** The period last asked for: by the create call of step `c`, or by a later call that sets it. */
  function AskedPeriod(ops: seq<Op>, c: nat, n: nat, t: nat): nat
    requires c < n <= |ops| && ops[c].CreateOp?
    decreases n
  {
    if n == c + 1 then ops[c].period
    else
      match ops[n - 1]
      case SetPeriodOp(u, q) => if u == t && q > 0 then q else AskedPeriod(ops, c, n - 1, t)
      case _ => AskedPeriod(ops, c, n - 1, t)
  }

  /** The entry of a timer says what was asked for, until the timer is deleted. */
  ghost predicate AsAsked(r: TimerRec, kind: Kind, period: nat) {
    r.id != 0 && r.kind == kind && r.period == period && r.callback
  }

  lemma CreatedAsAsked(ss: seq<Sys>, ops: seq<Op>, c: nat, t: nat)
    requires RunOf(ss, ops) && c < |ops| && Takes(ss, ops, c, t)
    ensures AsAsked(ss[c + 1].t.pool[t], ops[c].kind, ops[c].period) && ss[c + 1].t.pool[t].state == Stopped
  {
    assert Happens(ss[c], ops[c], ss[c + 1]);
  }

  lemma StepAsAsked(s: Sys, op: Op, t: nat, kind: Kind, period: nat)
    requires Possible(s, op) && t < MAX_TIMERS && AsAsked(s.t.pool[t], kind, period) && op != DeleteOp(t)
    ensures |After(s, op).t.pool| == MAX_TIMERS
    ensures AsAsked(After(s, op).t.pool[t], kind,
                    if op.SetPeriodOp? && op.timer == t && op.period > 0 then op.period else period)
  {
    hide Walk, OneShots, Callbacks, Fired, Clean, Without;
  }

  lemma {:induction false} EntryAsAsked(ss: seq<Sys>, ops: seq<Op>, c: nat, n: nat, t: nat)
    requires RunOf(ss, ops) && c < n < |ss| && Takes(ss, ops, c, t) && t < MAX_TIMERS
    requires forall k :: c < k < n ==> ops[k] != DeleteOp(t)
    ensures t < |ss[n].t.pool| && AsAsked(ss[n].t.pool[t], ops[c].kind, AskedPeriod(ops, c, n, t))
    decreases n
  {
    hide After, Possible, Takes, AsAsked;
    TakenInPool(ss, ops, c, t);
    if n == c + 1 {
      CreatedAsAsked(ss, ops, c, t);
    } else {
      EntryAsAsked(ss, ops, c, n - 1, t);
      assert Happens(ss[n - 1], ops[n - 1], ss[n]);
      StepAsAsked(ss[n - 1], ops[n - 1], t, ops[c].kind, AskedPeriod(ops, c, n - 1, t));
    }
  }

  lemma TakenInPool(ss: seq<Sys>, ops: seq<Op>, c: nat, t: nat)
    requires |ss| == |ops| + 1 && c < |ops| && Takes(ss, ops, c, t)
    ensures t < |ss[c].t.pool| == |ss[c + 1].t.pool| && ops[c].CreateOp?
  {
  }

  /** Multiples, counted. */
  lemma IsMultiple(x: nat, p: nat)
    requires p > 0 && x > 0
    ensures x % p == 0 <==> exists k :: k >= 1 && x == k * p
  {
    if x % p == 0 {
      var k := x / p;
      assert x == k * p;
      assert k >= 1 && x == k * p;
    }
    if k :| k >= 1 && x == k * p {
      DivOfSum(k, 0, p);
    }
  }

  /**
   What a client asked for is what it gets. In a run from the cleared pool, the call of
   step `c` creates a timer of some kind in entry `t`; it is not deleted, and the call of
   step `i` starts it at tick `s`, when it does not run. With `p` the period last asked
   for, a later tick fires it exactly if it makes the time `s + p`, if the create call
   said one-shot, and exactly if it makes the time `s + k * p` for some `k`, if it said
   periodic; as long as no further call names it.
   */
  lemma FiresAsAsked(ss: seq<Sys>, ops: seq<Op>, c: nat, i: nat, t: nat, n: nat)
    requires RunOf(ss, ops) && ss[0] == Booted() && c < i < n < |ops| && Takes(ss, ops, c, t)
    requires forall k :: c < k < i ==> ops[k] != DeleteOp(t)
    requires ops[i] == StartOp(t) && t < |ss[i].t.pool| && ss[i].t.pool[t].state != Running
    requires (forall k :: i < k < n ==> !Names(ops[k], t)) && ops[n] == TickOp
    ensures ListOk(ss[n].t)
    ensures var s, p, now := ss[i].now, AskedPeriod(ops, c, i, t), ss[n + 1].now;
            && p > 0
            && (t in Fired(ss[n].t.pool, ss[n].t.active) <==>
                  match ops[c].kind
                  case OneShot => now == s + p
                  case Periodic => exists k :: k >= 1 && now == s + k * p)
  {
    hide After, Possible, Takes, Inv, OnSchedule, Fired, AskedPeriod;
    TakenInPool(ss, ops, c, t);
    StructureFromBoot(ss, ops, i);
    PoolSize(ss[i]);
    EntryAsAsked(ss, ops, c, i, t);
    FiresFromBoot(ss, ops, i, t, n);
    PoolSize(ss[n]);
    assert Happens(ss[n], ops[n], ss[n + 1]);
    TickCounts(ss[n]);
    var s, p, now := ss[i].now, AskedPeriod(ops, c, i, t), ss[n + 1].now;
    StartedBefore(ss[n], t, s, p);
    IsMultiple(now - s, p);
    if ops[c].kind == Periodic {
      Shifted(now, s, p);
    }
  }

  lemma PoolSize(s: Sys)
    requires Inv(s)
    ensures |s.t.pool| == MAX_TIMERS == |s.due| && ListOk(s.t)
  {
  }

  lemma TickCounts(s: Sys)
    requires Possible(s, TickOp)
    ensures After(s, TickOp).now == s.now + 1
  {
  }

  lemma StartedBefore(s: Sys, t: nat, start: nat, p: nat)
    requires t < |s.t.pool| == |s.due| && OnSchedule(s.t.pool[t], s.due[t], start, p, s.now)
    ensures start <= s.now
  {
  }

  lemma Shifted(now: nat, s: nat, p: nat)
    requires s <= now
    ensures (exists k :: k >= 1 && now - s == k * p) <==> (exists k :: k >= 1 && now == s + k * p)
  {
    if k :| k >= 1 && now - s == k * p {
      assert k >= 1 && now == s + k * p;
    }
    if k :| k >= 1 && now == s + k * p {
      assert k >= 1 && now - s == k * p;
    }
  }

  // ----- timers that do not run -----

  /** A stopped timer, or an entry that has been given back, is not fired by any tick until it is started. */
  lemma {:induction false} QuietUntilStarted(ss: seq<Sys>, ops: seq<Op>, d: nat, n: nat, t: nat)
    requires RunOf(ss, ops) && ss[0] == Booted() && d < n < |ss| && (ops[d] == StopOp(t) || ops[d] == DeleteOp(t))
    requires forall k :: d < k < n ==> ops[k] != StartOp(t)
    ensures Inv(ss[n]) && t < MAX_TIMERS && t !in Fired(ss[n].t.pool, ss[n].t.active)
    ensures ss[n].t.pool[t].state != Running
    decreases n
  {
    hide After, Possible, Inv, Fired;
    StructureFromBoot(ss, ops, n);
    StructureFromBoot(ss, ops, n - 1);
    assert Happens(ss[n - 1], ops[n - 1], ss[n]);
    PoolSize(ss[n]);
    if n == d + 1 {
      StoppedAfter(ss[d], ops[d], t);
    } else {
      QuietUntilStarted(ss, ops, d, n - 1, t);
      StaysQuiet(ss[n - 1], ops[n - 1], t);
    }
    TickFires(ss[n]);
  }

  lemma StoppedAfter(s: Sys, op: Op, t: nat)
    requires Inv(s) && Possible(s, op) && (op == StopOp(t) || op == DeleteOp(t))
    ensures t < MAX_TIMERS == |After(s, op).t.pool| && After(s, op).t.pool[t].state != Running
    ensures op == DeleteOp(t) ==> After(s, op).t.pool[t].id == 0
  {
    hide Without, InUse, ListIsRunning;
    assert RecOk(s.t.pool[t], s.due[t], s.now, s.t.nextId);
  }

  lemma StaysQuiet(s: Sys, op: Op, t: nat)
    requires Inv(s) && Possible(s, op) && t < MAX_TIMERS && s.t.pool[t].state != Running && op != StartOp(t)
    ensures |After(s, op).t.pool| == MAX_TIMERS && After(s, op).t.pool[t].state != Running
  {
    hide Walk, OneShots, Callbacks, Fired, Clean, Without, InUse;
  }

  /** A deleted timer's entry is free again, for a create call to take. */
  lemma DeletedIsFree(ss: seq<Sys>, ops: seq<Op>, d: nat, t: nat)
    requires RunOf(ss, ops) && ss[0] == Booted() && d < |ops| && ops[d] == DeleteOp(t)
    ensures t < |ss[d + 1].t.pool| && ss[d + 1].t.pool[t].id == 0
  {
    hide After, Possible, Inv;
    StructureFromBoot(ss, ops, d);
    assert Happens(ss[d], ops[d], ss[d + 1]);
    StoppedAfter(ss[d], ops[d], t);
  }

  // ----- the counters -----

  /** How many timers the ticks of the first `n` steps have fired. */
  ghost function Firings(ss: seq<Sys>, ops: seq<Op>, n: nat): nat
    requires RunOf(ss, ops) && ss[0] == Booted() && n <= |ops|
  {
    if n == 0 then 0
    else
      Firings(ss, ops, n - 1) +
      if ops[n - 1] == TickOp then
        StructureFromBoot(ss, ops, n - 1);
        |Fired(ss[n - 1].t.pool, ss[n - 1].t.active)|
      else 0
  }

  lemma {:induction false} AllCallBack(pool: seq<TimerRec>, list: seq<nat>)
    requires forall i :: 0 <= i < |list| ==> list[i] < |pool| && pool[list[i]].callback
    ensures Callbacks(pool, list) == |Fired(pool, list)|
    decreases |list|
  {
    if list != [] {
      AllCallBack(pool, list[1..]);
    }
  }

  /** Every firing is counted once, and makes one callback. */
  lemma {:induction false} CountersFromBoot(ss: seq<Sys>, ops: seq<Op>, n: nat)
    requires RunOf(ss, ops) && ss[0] == Booted() && n < |ss|
    ensures ss[n].t.expiredCount == ss[n].t.callbackCount == Firings(ss, ops, n)
    decreases n
  {
    hide Possible, After, Inv, Fired;
    if n > 0 {
      CountersFromBoot(ss, ops, n - 1);
      StructureFromBoot(ss, ops, n - 1);
      assert Happens(ss[n - 1], ops[n - 1], ss[n]);
      StepCounts(ss[n - 1], ops[n - 1]);
    }
  }

  lemma StepCounts(s: Sys, op: Op)
    requires Inv(s) && Possible(s, op)
    ensures ListOk(s.t)
    ensures var t, fired := After(s, op).t, if op == TickOp then |Fired(s.t.pool, s.t.active)| else 0;
            t.expiredCount == s.t.expiredCount + fired && t.callbackCount == s.t.callbackCount + fired
  {
    hide Inv, Fired, Callbacks, Walk, OneShots, Without, FirstFree, TickPool, DuesAfter, Clean;
    ListedCallBack(s);
  }

  lemma ListedCallBack(s: Sys)
    requires Inv(s)
    ensures ListOk(s.t) && Callbacks(s.t.pool, s.t.active) == |Fired(s.t.pool, s.t.active)|
  {
    hide InUse, IdsApart, Distinct;
    var pool, list := s.t.pool, s.t.active;
    forall i | 0 <= i < |list| ensures list[i] < |pool| && pool[list[i]].callback {
      assert list[i] in list;
      assert RecOk(pool[list[i]], s.due[list[i]], s.now, s.t.nextId);
    }
    AllCallBack(pool, list);
  }
}
