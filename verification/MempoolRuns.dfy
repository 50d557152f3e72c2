/**
 Whole runs of a memory pool and its clients: allocation, giving back allocated blocks
 or foreign addresses, ticks, and clients writing into the blocks they hold.

 `free` is the list of free blocks in the order in which they will be handed out. It
 exists in the proof only; the pool keeps it in the blocks themselves.
 */
module MempoolRuns {
  import opened Bytes
  import opened Links
  import opened MempoolSpec

  datatype Sys = Sys(s: Pool, free: seq<nat>)

  datatype Op = AllocOp | FreeOp(ptr: nat) | WriteOp(block: nat, at: nat, data: seq<byte>) | TickOp

  ghost predicate Inv(x: Sys, n: nat) { Heap(x.s, n, x.free) }

  /** The run hands out block `b` here. */
  ghost predicate Hands(x: Sys, op: Op, b: nat) {
    op == AllocOp && HeadOk(x.s) && Alloc(x.s).status == OK && Alloc(x.s).block == Addr(x.s, b)
  }

  /** The run gives back block `b` here. */
  ghost predicate GivesBack(x: Sys, op: Op, b: nat) {
    op.FreeOp? && x.s.stride > 0 && AddressValid(x.s, op.ptr) && x.s.opsLeft > 0 && op.ptr == Addr(x.s, b)
  }

  /** Clients give back and write to blocks they hold; addresses that are no blocks may be given back too. */
  ghost predicate Possible(x: Sys, n: nat, op: Op) {
    match op
    case AllocOp => true
    case FreeOp(ptr) => x.s.stride > 0 && (AddressValid(x.s, ptr) ==> BlockAt(x.s, ptr) !in x.free)
    case WriteOp(b, at, data) => b < n && b !in x.free && at + |data| <= x.s.stride
    case TickOp => true
  }

  ghost predicate Happens(x: Sys, n: nat, op: Op, y: Sys) {
    && Possible(x, n, op)
    && match op {
         case AllocOp =>
           HeadOk(x.s) && y.s == Alloc(x.s).pool
           && y.free == if Alloc(x.s).status == OK && x.free != [] then x.free[1..] else x.free
         case FreeOp(ptr) =>
           && (AddressValid(x.s, ptr) ==> ptr - x.s.base + 4 <= |x.s.mem|)
           && y.s == Free(x.s, ptr).pool
           && y.free == if Free(x.s, ptr).status == OK then [BlockAt(x.s, ptr)] + x.free else x.free
         case WriteOp(b, at, data) =>
           Offset(x.s, b) + at + |data| <= |x.s.mem| && y == x.(s := Write(x.s, b, at, data))
         case TickOp => y == x.(s := Tick(x.s))
       }
  }

  ghost predicate RunOf(xs: seq<Sys>, n: nat, ops: seq<Op>) {
    && |xs| == |ops| + 1
    && forall i, j :: 0 <= i < |ops| && j == i + 1 ==> Happens(xs[i], n, ops[i], xs[j])
  }

  lemma StepKeepsInv(x: Sys, n: nat, op: Op, y: Sys)
    requires Inv(x, n) && Happens(x, n, op, y)
    ensures Inv(y, n) && y.s.base == x.s.base && y.s.stride == x.s.stride && y.s.end == x.s.end
  {
    hide Alloc, Free, Write, AddressValid, Offset, Threaded, HeadOk;
    match op {
      case AllocOp => AllocTakesFirst(x.s, n, x.free); AllocFrame(x.s);
      case FreeOp(ptr) => FreeStep(x, n, ptr);
      case WriteOp(b, at, data) => WriteKeeps(x.s, n, x.free, b, at, data); WriteFrame(x.s, b, at, data);
      case TickOp => TickKeeps(x.s, n, x.free);
    }
  }

  lemma AllocFrame(s: Pool)
    requires HeadOk(s)
    ensures var t := Alloc(s).pool; t.base == s.base && t.stride == s.stride && t.end == s.end
  {
  }

  lemma WriteFrame(s: Pool, b: nat, at: nat, data: seq<byte>)
    requires Offset(s, b) + at + |data| <= |s.mem|
    ensures var t := Write(s, b, at, data); t.base == s.base && t.stride == s.stride && t.end == s.end
  {
  }

  lemma TickKeeps(s: Pool, n: nat, free: seq<nat>)
    requires Heap(s, n, free)
    ensures Heap(Tick(s), n, free)
  {
    SameWords(s, Tick(s), n, free);
  }

  lemma FreeStep(x: Sys, n: nat, ptr: nat)
    requires Inv(x, n) && x.s.stride > 0 && (AddressValid(x.s, ptr) ==> BlockAt(x.s, ptr) !in x.free)
    ensures AddressValid(x.s, ptr) ==> ptr - x.s.base + 4 <= |x.s.mem|
    ensures var o := Free(x.s, ptr);
            && Heap(o.pool, n, if o.status == OK then [BlockAt(x.s, ptr)] + x.free else x.free)
            && o.pool.base == x.s.base && o.pool.stride == x.s.stride && o.pool.end == x.s.end
  {
    hide Threaded;
    if AddressValid(x.s, ptr) {
      HeapShape(x.s, n, x.free);
      AddressValidIff(x.s, n, ptr);
      ValidFits(x.s, n, ptr);
      if x.s.opsLeft > 0 {
        FreePutsFirst(x.s, n, x.free, BlockAt(x.s, ptr));
      }
    }
  }

  /** The free list is sound in every state of every run. */
  lemma {:induction false} HeapOverRuns(xs: seq<Sys>, n: nat, ops: seq<Op>, m: nat)
    requires RunOf(xs, n, ops) && Inv(xs[0], n) && m < |xs|
    ensures Inv(xs[m], n) && xs[m].s.base == xs[0].s.base && xs[m].s.stride == xs[0].s.stride
    decreases m
  {
    hide Inv, Happens;
    if m > 0 {
      HeapOverRuns(xs, n, ops, m - 1);
      assert Happens(xs[m - 1], n, ops[m - 1], xs[m]);
      StepKeepsInv(xs[m - 1], n, ops[m - 1], xs[m]);
    }
  }

  // ----- no block is handed out twice -----

  /** The bytes of block `b`. */
  function Content(s: Pool, b: nat): seq<byte> {
    if Offset(s, b) + s.stride <= |s.mem| then s.mem[Offset(s, b)..Offset(s, b) + s.stride] else []
  }

  predicate WritesTo(op: Op, b: nat) { op.WriteOp? && op.block == b }

  /** A block in use stays in use, with its bytes, whatever happens to other blocks. */
  lemma StepKeepsBlock(x: Sys, n: nat, op: Op, y: Sys, b: nat)
    requires Inv(x, n) && Happens(x, n, op, y) && b < n && b !in x.free && !GivesBack(x, op, b)
    ensures b !in y.free
    ensures !WritesTo(op, b) ==> Content(y.s, b) == Content(x.s, b)
  {
    hide Threaded, Offset;
    HeapShape(x.s, n, x.free);
    InBuffer(x.s, n, b);
    match op {
      case AllocOp =>
        AllocTakesFirst(x.s, n, x.free);
        SameContent(x.s, y.s, b);
      case FreeOp(ptr) =>
        if Free(x.s, ptr).status == OK {
          AddressValidIff(x.s, n, ptr);
          var c := BlockAt(x.s, ptr);
          InBuffer(x.s, n, c);
          assert c != b;
          Apart(x.s, b, c);
          LoadBeside(x.s.mem, Offset(x.s, c), x.s.freeList, Offset(x.s, b), x.s.stride);
          SameContent(x.s, y.s, b);
        }
      case WriteOp(c, at, data) =>
        if c != b {
          InBuffer(x.s, n, c);
          Apart(x.s, b, c);
          SameContent(x.s, y.s, b);
        }
      case TickOp =>
        SameContent(x.s, y.s, b);
    }
  }

  lemma SameContent(s: Pool, t: Pool, b: nat)
    requires t.stride == s.stride && |t.mem| == |s.mem| && Offset(s, b) + s.stride <= |s.mem|
    requires forall i :: Offset(s, b) <= i < Offset(s, b) + s.stride ==> t.mem[i] == s.mem[i]
    ensures Content(t, b) == Content(s, b)
  {
  }

  /** From a state in which a block is in use, it stays so until it is given back; its bytes until its owner writes. */
  lemma {:induction false} HeldOverRuns(xs: seq<Sys>, n: nat, ops: seq<Op>, i: nat, m: nat, b: nat)
    requires RunOf(xs, n, ops) && Inv(xs[0], n) && i <= m < |xs|
    requires b < n && b !in xs[i].free
    requires forall k :: i <= k < m ==> !GivesBack(xs[k], ops[k], b)
    ensures b !in xs[m].free
    ensures (forall k :: i <= k < m ==> !WritesTo(ops[k], b)) ==> Content(xs[m].s, b) == Content(xs[i].s, b)
    decreases m
  {
    hide Inv, Happens, Content, GivesBack;
    if m > i {
      HeldOverRuns(xs, n, ops, i, m - 1, b);
      HeapOverRuns(xs, n, ops, m - 1);
      assert Happens(xs[m - 1], n, ops[m - 1], xs[m]);
      StepKeepsBlock(xs[m - 1], n, ops[m - 1], xs[m], b);
    }
  }

  /** What is handed out was free, and is in use from then on. */
  lemma HandedOut(x: Sys, n: nat, op: Op, y: Sys, b: nat)
    requires Inv(x, n) && Happens(x, n, op, y) && Hands(x, op, b)
    ensures b < n && b in x.free && b !in y.free
  {
    hide Threaded, Offset;
    AllocTakesFirst(x.s, n, x.free);
    HeapShape(x.s, n, x.free);
    InBuffer(x.s, n, x.free[0]);
    if x.free[0] != b { Apart(x.s, x.free[0], b); }
  }

  /** Between two times a block is handed out it has been given back. */
  lemma NoDoubleHandout(xs: seq<Sys>, n: nat, ops: seq<Op>, i: nat, j: nat, b: nat)
    requires RunOf(xs, n, ops) && Inv(xs[0], n) && i < j < |ops|
    requires Hands(xs[i], ops[i], b) && Hands(xs[j], ops[j], b)
    ensures exists k :: i < k < j && GivesBack(xs[k], ops[k], b)
  {
    hide Inv, Happens, Hands, GivesBack, Content;
    HeapOverRuns(xs, n, ops, i);
    HeapOverRuns(xs, n, ops, j);
    assert Happens(xs[i], n, ops[i], xs[i + 1]) && Happens(xs[j], n, ops[j], xs[j + 1]);
    HandedOut(xs[i], n, ops[i], xs[i + 1], b);
    HandedOut(xs[j], n, ops[j], xs[j + 1], b);
    if forall k :: i < k < j ==> !GivesBack(xs[k], ops[k], b) {
      HeldOverRuns(xs, n, ops, i + 1, j, b);
    }
  }

  ghost function Upto(n: nat): (r: set<nat>)
    ensures |r| == n && forall b: nat :: b in r <==> b < n
  {
    if n == 0 then {} else Upto(n - 1) + {n - 1}
  }

  ghost function InUse(free: seq<nat>, n: nat): set<nat> {
    set b | b in Upto(n) && b !in free
  }

  ghost function Members(list: seq<nat>): (r: set<nat>)
    ensures forall b: nat :: b in r <==> b in list
  {
    set b: nat | b in list
  }

  lemma {:induction false} CountMembers(list: seq<nat>)
    requires Distinct(list)
    ensures |Members(list)| == |list|
  {
    if list == [] {
      assert Members(list) == {};
    } else {
      var rest, last := list[..|list| - 1], list[|list| - 1];
      CountMembers(rest);
      assert list == rest + [last] && last !in rest;
      assert Members(list) == Members(rest) + {last};
    }
  }

  /** Free blocks and blocks in use make up the pool. */
  lemma Partition(x: Sys, n: nat)
    requires Inv(x, n)
    ensures |x.free| + |InUse(x.free, n)| == n
  {
    hide Geometry, WordAt, Addr, Link;
    CountMembers(x.free);
    var free, used := Members(x.free), InUse(x.free, n);
    forall b: nat | b in x.free ensures b < n {
      var i :| 0 <= i < |x.free| && x.free[i] == b;
    }
    assert free + used == Upto(n);
    assert free * used == {};
  }

  // ----- giving back undoes taking -----

  /** A block given back is the next one handed out, and the rest of the free list is as before. */
  lemma FreeThenAlloc(s: Pool, n: nat, free: seq<nat>, b: nat)
    requires Heap(s, n, free) && b < n && b !in free && s.opsLeft >= 2
    ensures s.stride > 0 && AddressValid(s, Addr(s, b)) && Addr(s, b) - s.base + 4 <= |s.mem|
    ensures var t := Free(s, Addr(s, b)).pool;
            && HeadOk(t)
            && var o := Alloc(t);
            && o.status == OK && o.block == Addr(s, b)
            && o.pool.freeList == s.freeList && o.pool.freeCount == s.freeCount && Heap(o.pool, n, free)
  {
    hide Threaded, Offset;
    FreePutsFirst(s, n, free, b);
    var t := Free(s, Addr(s, b)).pool;
    AllocTakesFirst(t, n, [b] + free);
    assert ([b] + free)[1..] == free;
    assert t.base == s.base && t.stride == s.stride;
    SameHead(s, t, n, free, b);
    HeapShape(Alloc(t).pool, n, free);
    SameHead(s, Alloc(t).pool, n, free, b);
  }

  // ----- the operation budget -----

  predicate Spends(x: Sys, y: Sys) { y.s.opsLeft != x.s.opsLeft }

  function Spent(xs: seq<Sys>, i: nat, m: nat): nat
    requires i <= m < |xs|
    decreases m
  {
    if m == i then 0 else Spent(xs, i, m - 1) + if Spends(xs[m - 1], xs[m]) then 1 else 0
  }

  /** Between ticks, at most the budget of operations succeeds: each takes one, and refused ones take none. */
  lemma {:induction false} BudgetBetweenTicks(xs: seq<Sys>, n: nat, ops: seq<Op>, i: nat, m: nat)
    requires RunOf(xs, n, ops) && i <= m < |xs| && xs[0].s.opsLeft <= xs[0].s.opsPerTick
    requires forall k :: i <= k < m ==> ops[k] != TickOp
    ensures xs[m].s.opsLeft + Spent(xs, i, m) == xs[i].s.opsLeft
    ensures Spent(xs, i, m) <= xs[0].s.opsPerTick
    decreases m
  {
    BudgetOverRuns(xs, n, ops, i);
    if m > i {
      BudgetBetweenTicks(xs, n, ops, i, m - 1);
      assert Happens(xs[m - 1], n, ops[m - 1], xs[m]);
      StepSpends(xs[m - 1], n, ops[m - 1], xs[m]);
    }
  }

  /** Only a successful operation takes from the budget, and it takes one. */
  lemma StepSpends(x: Sys, n: nat, op: Op, y: Sys)
    requires Happens(x, n, op, y)
    ensures y.s.opsPerTick == x.s.opsPerTick
    ensures op == TickOp ==> y.s.opsLeft == x.s.opsPerTick
    ensures op != TickOp ==> y.s.opsLeft == x.s.opsLeft - if Spends(x, y) then 1 else 0
    ensures op == AllocOp ==> (Spends(x, y) <==> HeadOk(x.s) && Alloc(x.s).status == OK)
    ensures op.FreeOp? ==> (Spends(x, y) <==> exists b :: GivesBack(x, op, b))
  {
    if op.FreeOp? && Spends(x, y) {
      var q := BlockAt(x.s, op.ptr);
      assert op.ptr - x.s.base == q * x.s.stride;
      assert GivesBack(x, op, q);
    }
  }

  lemma {:induction false} BudgetOverRuns(xs: seq<Sys>, n: nat, ops: seq<Op>, m: nat)
    requires RunOf(xs, n, ops) && m < |xs| && xs[0].s.opsLeft <= xs[0].s.opsPerTick
    ensures xs[m].s.opsLeft <= xs[m].s.opsPerTick == xs[0].s.opsPerTick
    decreases m
  {
    hide Happens;
    if m > 0 {
      BudgetOverRuns(xs, n, ops, m - 1);
      assert Happens(xs[m - 1], n, ops[m - 1], xs[m]);
      StepSpends(xs[m - 1], n, ops[m - 1], xs[m]);
    }
  }

  // ----- the low-water mark -----

  /** In a pool of fewer than 65536 blocks the mark is the least number of free blocks so far. */
  lemma {:induction false} LowWater(xs: seq<Sys>, n: nat, ops: seq<Op>, m: nat)
    requires RunOf(xs, n, ops) && Inv(xs[0], n) && m < |xs| && n < TWO16
    requires xs[0].s.minFree == |xs[0].free|
    ensures forall k :: 0 <= k <= m ==> xs[m].s.minFree <= |xs[k].free|
    ensures exists k :: 0 <= k <= m && xs[m].s.minFree == |xs[k].free|
    decreases m
  {
    hide Inv, Happens;
    if m == 0 {
    } else {
      LowWater(xs, n, ops, m - 1);
      HeapOverRuns(xs, n, ops, m - 1);
      HeapOverRuns(xs, n, ops, m);
      assert Happens(xs[m - 1], n, ops[m - 1], xs[m]);
      StepMark(xs[m - 1], n, ops[m - 1], xs[m]);
      var k :| 0 <= k <= m - 1 && xs[m - 1].s.minFree == |xs[k].free|;
      assert xs[m].s.minFree == |xs[k].free| || xs[m].s.minFree == |xs[m].free|;
    }
  }

  lemma StepMark(x: Sys, n: nat, op: Op, y: Sys)
    requires Inv(x, n) && Inv(y, n) && Happens(x, n, op, y) && n < TWO16 && x.s.minFree <= |x.free|
    ensures y.s.minFree == if |y.free| < x.s.minFree then |y.free| else x.s.minFree
  {
    hide Threaded, Offset;
    Partition(x, n);
    Partition(y, n);
    if op == AllocOp {
      AllocTakesFirst(x.s, n, x.free);
    }
  }

  // ----- the free counter -----

  /**
   In a run from initialisation the 16-bit counter is the number of free blocks throughout exactly if there
   are fewer than 65536 blocks.
   */
  lemma FreeCountIff(xs: seq<Sys>, n: nat, ops: seq<Op>, opsPerTick: nat)
    requires RunOf(xs, n, ops) && Fresh(xs[0].s, n, opsPerTick) && xs[0].free == Iota(n)
    ensures (forall m :: 0 <= m < |xs| ==> xs[m].s.freeCount == |xs[m].free|) <==> n < TWO16
  {
    hide Threaded;
    if n < TWO16 {
      forall m | 0 <= m < |xs| ensures xs[m].s.freeCount == |xs[m].free| {
        HeapOverRuns(xs, n, ops, m);
        Partition(xs[m], n);
      }
    } else {
      assert xs[0].s.freeCount < TWO16 <= |xs[0].free|;
    }
  }

  // ----- a block given back twice -----

  /**
   Every fresh pool with room in its budget has a run after which a double free is
   accepted: a block is allocated, given back, and given back again. The free list is
   then a circle, and the next two allocations hand out the same block.
   */
  lemma DoubleFree(s: Pool, n: nat, opsPerTick: nat)
    requires Fresh(s, n, opsPerTick) && n > 0 && s.opsLeft >= 5
    ensures exists x1, x2 ::
      && RunOf([Sys(s, Iota(n)), x1, x2], n, [AllocOp, FreeOp(s.base)])
      && x1.s == Alloc(s).pool && Alloc(s).block == s.base
      && x2.s.stride > 0 && AddressValid(x2.s, s.base) && 4 <= |x2.s.mem| && x2.s.base == s.base
      && var y := Free(x2.s, s.base);
         && y.status == OK && !Sound(y.pool, n)
         && HeadOk(y.pool)
         && var o := Alloc(y.pool);
            o.status == OK && o.block == s.base && HeadOk(o.pool) && Alloc(o.pool).status == OK
            && Alloc(o.pool).block == s.base
  {
    hide Threaded, LoadWord, StoreWord;
    var x0 := Sys(s, Iota(n));
    AllocTakesFirst(s, n, Iota(n));
    HeapShape(s, n, Iota(n));
    InBuffer(s, n, 0);
    var x1 := Sys(Alloc(s).pool, Iota(n)[1..]);
    assert Happens(x0, n, AllocOp, x1);
    HeapShape(x1.s, n, x1.free);
    AddressValidIff(x1.s, n, s.base);
    FreePutsFirst(x1.s, n, x1.free, 0);
    var x2 := Sys(Free(x1.s, s.base).pool, [0] + x1.free);
    assert Happens(x1, n, FreeOp(s.base), x2);
    FreeSoundIff(x2.s, n, x2.free, 0);
    Circle(x2.s, n, x2.free);
    assert RunOf([x0, x1, x2], n, [AllocOp, FreeOp(s.base)]);
  }

  /** Giving back the first free block makes its word point at itself. */
  lemma Circle(s: Pool, n: nat, free: seq<nat>)
    requires Heap(s, n, free) && n > 0 && |free| > 0 && free[0] == 0 && s.opsLeft >= 3
    ensures s.stride > 0 && AddressValid(s, s.base) && 4 <= |s.mem|
    ensures var y := Free(s, s.base).pool;
            && HeadOk(y)
            && var o := Alloc(y);
               o.status == OK && o.block == s.base && HeadOk(o.pool) && Alloc(o.pool).status == OK
               && Alloc(o.pool).block == s.base
  {
    hide Threaded, LoadWord, StoreWord;
    HeapShape(s, n, free);
    InBuffer(s, n, 0);
    AddressValidIff(s, n, s.base);
    assert s.freeList == s.base;
    LoadStored(s.mem, 0, s.base);
  }

  // ----- what the calls answer -----

  /** Giving back answers INVALID exactly for what is not the start of a block, and BUSY exactly without budget. */
  lemma FreeAnswers(s: Pool, n: nat, free: seq<nat>, ptr: nat)
    requires Heap(s, n, free)
    ensures s.stride > 0 && (AddressValid(s, ptr) ==> ptr - s.base + 4 <= |s.mem|)
    ensures var o, block := Free(s, ptr), exists b :: 0 <= b < n && ptr == s.base + b * s.stride;
            && o.status == (if !block then INVALID else if s.opsLeft == 0 then BUSY else OK)
            && (o.status != OK ==> o.pool == s)
            && (o.status == OK ==> o.pool.freeList == ptr && o.pool.opsLeft == s.opsLeft - 1)
  {
    hide Threaded, StoreWord;
    HeapShape(s, n, free);
    AddressValidIff(s, n, ptr);
    if AddressValid(s, ptr) {
      ValidFits(s, n, ptr);
      assert ptr == s.base + BlockAt(s, ptr) * s.stride;
    }
    if b :| 0 <= b < n && ptr == s.base + b * s.stride {
      assert ptr == Addr(s, b);
    }
  }

  /** The operations that a fresh pool grants per tick. */
  function Budget(n: nat, opsPerTick: nat): nat { if opsPerTick == 0 then n % TWO16 else opsPerTick }

  /** How many of `k` allocations from a fresh pool succeed. */
  function Granted(n: nat, opsPerTick: nat, k: nat): nat {
    var most := if n < Budget(n, opsPerTick) then n else Budget(n, opsPerTick);
    if k < most then k else most
  }

  lemma {:induction false} AfterAllocs(xs: seq<Sys>, n: nat, ops: seq<Op>, opsPerTick: nat, k: nat)
    requires RunOf(xs, n, ops) && Fresh(xs[0].s, n, opsPerTick) && xs[0].free == Iota(n) && k < |xs|
    requires forall i :: 0 <= i < k ==> ops[i] == AllocOp
    ensures var g := Granted(n, opsPerTick, k);
            && Inv(xs[k], n) && xs[k].free == Iota(n)[g..] && xs[k].s.opsLeft == Budget(n, opsPerTick) - g
            && xs[k].s.base == xs[0].s.base && xs[k].s.stride == xs[0].s.stride
    decreases k
  {
    hide Inv, Happens, Heap, Offset;
    FreshInv(xs[0], n, opsPerTick);
    if k == 0 {
      assert Iota(n)[0..] == Iota(n);
    } else {
      AfterAllocs(xs, n, ops, opsPerTick, k - 1);
      HeapOverRuns(xs, n, ops, k);
      assert Happens(xs[k - 1], n, ops[k - 1], xs[k]);
      OneAlloc(xs[k - 1], n, xs[k]);
    }
  }

  lemma FreshInv(x: Sys, n: nat, opsPerTick: nat)
    requires Fresh(x.s, n, opsPerTick) && x.free == Iota(n)
    ensures Inv(x, n) && x.s.opsLeft == Budget(n, opsPerTick)
  {
    hide Heap;
  }

  lemma OneAlloc(x: Sys, n: nat, y: Sys)
    requires Inv(x, n) && Happens(x, n, AllocOp, y)
    ensures HeadOk(x.s)
    ensures Alloc(x.s).status == if x.s.opsLeft == 0 then BUSY else if x.free == [] then EMPTY else OK
    ensures Alloc(x.s).status == OK ==>
      && Alloc(x.s).block == Addr(x.s, x.free[0]) && y.free == x.free[1..] && y.s.opsLeft == x.s.opsLeft - 1
    ensures Alloc(x.s).status != OK ==> y == x
  {
    hide Threaded, Offset;
    AllocTakesFirst(x.s, n, x.free);
  }

  /**
   Allocating from a fresh pool, call after call without a tick, hands out the blocks in
   order of address, until the budget is used up, which answers BUSY from then on, or the
   blocks are, which answers EMPTY. Without a budget of its own a pool has one of its
   number of blocks, in 16 bits.
   */
  lemma AllocAnswers(xs: seq<Sys>, n: nat, ops: seq<Op>, opsPerTick: nat, k: nat)
    requires RunOf(xs, n, ops) && Fresh(xs[0].s, n, opsPerTick) && xs[0].free == Iota(n) && k < |ops|
    requires forall i :: 0 <= i <= k ==> ops[i] == AllocOp
    ensures HeadOk(xs[k].s)
    ensures var o, budget := Alloc(xs[k].s), if opsPerTick == 0 then n % 0x1_0000 else opsPerTick;
            && o.status == (if k < n && k < budget then OK else if budget <= n then BUSY else EMPTY)
            && (o.status == OK ==> o.block == xs[0].s.base + k * xs[0].s.stride)
  {
    hide Inv, Happens, Heap;
    AfterAllocs(xs, n, ops, opsPerTick, k);
    assert Happens(xs[k], n, ops[k], xs[k + 1]);
    OneAlloc(xs[k], n, xs[k + 1]);
  }
}
