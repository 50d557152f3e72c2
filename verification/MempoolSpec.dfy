/**
 The fixed-block memory pool: a free list threaded through the first four bytes of the
 free blocks themselves, and a budget of operations per tick.

 Addresses are 32-bit; 0 is the null pointer.
 */
module MempoolSpec {
  import opened Arithmetic
  import opened Bytes
  import opened Links

  const TWO16 := 0x1_0000
  const TWO32 := 0x1_0000_0000

  datatype Status = OK | EMPTY | BUSY | INVALID

  datatype Pool = Pool(
    base: nat, end: nat, blockSize: nat, stride: nat,
    blockCount: nat, freeCount: nat, minFree: nat, opsPerTick: nat, opsLeft: nat,
    freeList: nat,
    mem: seq<byte>)

  /** Rounding up to a multiple of `align` in 32-bit arithmetic. */
  function AlignUp(value: nat, align: nat): nat
    requires align > 0
  {
    var t := (value + (align - 1)) % TWO32;
    t - t % align
  }

  /** The rounded size is the least multiple of four that fits, unless adding wraps: then it is too small. */
  lemma AlignUpExact(value: nat)
    requires 0 < value < TWO32
    ensures var r := AlignUp(value, 4);
            && r % 4 == 0
            && (value <= r <==> value <= TWO32 - 4)
            && (value <= r ==> r < value + 4)
  {
  }

  // ----- words in memory -----

  function LoadWord(mem: seq<byte>, off: nat): nat
    requires off + 4 <= |mem|
  {
    FromLe32(mem[off..off + 4])
  }

  function StoreWord(mem: seq<byte>, off: nat, v: nat): (r: seq<byte>)
    requires off + 4 <= |mem|
    ensures |r| == |mem|
  {
    Overlay(mem, off, Le32(v))
  }

  lemma LoadStored(mem: seq<byte>, off: nat, v: nat)
    requires off + 4 <= |mem| && v < TWO32
    ensures LoadWord(StoreWord(mem, off, v), off) == v
  {
    assert StoreWord(mem, off, v)[off..off + 4] == Le32(v);
    Le32RoundTrip(v);
  }

  /** Bytes outside the word stay. */
  lemma LoadBeside(mem: seq<byte>, off: nat, v: nat, a: nat, n: nat)
    requires off + 4 <= |mem| && a + n <= |mem| && (a + n <= off || off + 4 <= a)
    ensures StoreWord(mem, off, v)[a..a + n] == mem[a..a + n]
  {
  }

  // ----- blocks -----

  /** Where block `b` starts in the buffer. */
  function Offset(s: Pool, b: nat): nat { b * s.stride }

  function Addr(s: Pool, b: nat): nat { s.base + Offset(s, b) }

  /** The pool has `n` blocks, and they fit the buffer and the address space. */
  predicate Geometry(s: Pool, n: nat) {
    s.base > 0 && s.stride >= 4 && s.end == s.base + Offset(s, n) <= TWO32 && Offset(s, n) <= |s.mem|
  }

  lemma InBuffer(s: Pool, n: nat, b: nat)
    requires Geometry(s, n) && b < n
    ensures Offset(s, b) + s.stride <= Offset(s, n)
    ensures 0 < s.base <= Addr(s, b) < s.end <= TWO32 && Offset(s, b) + s.stride <= |s.mem|
  {
    assert (b + 1) * s.stride <= n * s.stride;
  }

  lemma Apart(s: Pool, b: nat, c: nat)
    requires b != c && s.stride > 0
    ensures Offset(s, b) + s.stride <= Offset(s, c) || Offset(s, c) + s.stride <= Offset(s, b)
    ensures Addr(s, b) != Addr(s, c)
  {
    if b < c {
      assert (b + 1) * s.stride <= c * s.stride;
    } else {
      assert (c + 1) * s.stride <= b * s.stride;
    }
  }

  /** The check on addresses given back. */
  predicate AddressValid(s: Pool, ptr: nat)
    requires s.stride > 0
  {
    ptr != 0 && s.base <= ptr < s.end && (ptr - s.base) % s.stride == 0
  }

  function BlockAt(s: Pool, ptr: nat): nat
    requires s.stride > 0 && s.base <= ptr
  {
    (ptr - s.base) / s.stride
  }

  /** The check accepts exactly the starts of the pool's blocks. */
  lemma AddressValidIff(s: Pool, n: nat, ptr: nat)
    requires Geometry(s, n)
    ensures AddressValid(s, ptr) <==> exists b :: 0 <= b < n && ptr == Addr(s, b)
    ensures AddressValid(s, ptr) ==> BlockAt(s, ptr) < n && ptr == Addr(s, BlockAt(s, ptr))
  {
    if AddressValid(s, ptr) {
      var b := BlockAt(s, ptr);
      assert ptr - s.base == b * s.stride;
      assert b >= n ==> b * s.stride >= n * s.stride;
      assert ptr == Addr(s, b);
    }
    forall b | 0 <= b < n && ptr == Addr(s, b) ensures AddressValid(s, ptr) {
      InBuffer(s, n, b);
      DivOfSum(b, 0, s.stride);
    }
  }

  // ----- the calls -----

  predicate HeadOk(s: Pool) {
    s.freeList != 0 ==> s.base <= s.freeList && s.freeList - s.base + 4 <= |s.mem|
  }

  datatype Outcome = Outcome(pool: Pool, status: Status, block: nat)

  function Alloc(s: Pool): Outcome
    requires HeadOk(s)
  {
    if s.opsLeft == 0 then Outcome(s, BUSY, 0)
    else if s.freeList == 0 then Outcome(s, EMPTY, 0)
    else
      var left := (s.freeCount - 1) % TWO16;
      Outcome(s.(freeList := LoadWord(s.mem, s.freeList - s.base), freeCount := left,
                 minFree := if left < s.minFree then left else s.minFree, opsLeft := s.opsLeft - 1),
              OK, s.freeList)
  }

  function Free(s: Pool, ptr: nat): Outcome
    requires s.stride > 0
    requires AddressValid(s, ptr) ==> ptr - s.base + 4 <= |s.mem|
  {
    if ptr == 0 || !AddressValid(s, ptr) then Outcome(s, INVALID, 0)
    else if s.opsLeft == 0 then Outcome(s, BUSY, 0)
    else
      Outcome(s.(mem := StoreWord(s.mem, ptr - s.base, s.freeList), freeList := ptr,
                 freeCount := (s.freeCount + 1) % TWO16, opsLeft := s.opsLeft - 1),
              OK, 0)
  }

  function Tick(s: Pool): Pool { s.(opsLeft := s.opsPerTick) }

  /** The client stores `data` into its block. */
  function Write(s: Pool, b: nat, at: nat, data: seq<byte>): Pool
    requires Offset(s, b) + at + |data| <= |s.mem|
  {
    s.(mem := Overlay(s.mem, Offset(s, b) + at, data))
  }

  // ----- the heap -----

  /** The pointer to position `i` of a free list, or null past its end. */
  function Link(s: Pool, free: seq<nat>, i: nat): nat {
    if i < |free| then Addr(s, free[i]) else 0
  }

  /** Following the pointers in memory from the head visits exactly the blocks `free` and ends in null. */
  ghost predicate Threaded(s: Pool, n: nat, free: seq<nat>) {
    && Geometry(s, n) && Distinct(free)
    && (forall i :: 0 <= i < |free| ==> free[i] < n)
    && s.freeList == Link(s, free, 0)
    && (forall i, j :: 0 <= i && j == i + 1 && j < |free| ==> WordAt(s, free[i]) == Addr(s, free[j]))
    && (free != [] ==> WordAt(s, free[|free| - 1]) == 0)
  }

  lemma Follow(s: Pool, n: nat, free: seq<nat>, i: nat)
    requires Threaded(s, n, free) && i < |free|
    ensures WordAt(s, free[i]) == Link(s, free, i + 1) && free[i] < n
  {
    hide WordAt, Addr, Geometry;
  }

  function WordAt(s: Pool, b: nat): nat {
    if Offset(s, b) + 4 <= |s.mem| then LoadWord(s.mem, Offset(s, b)) else 0
  }

  /** The free list is sound and the counter counts it, in 16 bits. */
  ghost predicate Heap(s: Pool, n: nat, free: seq<nat>) {
    Threaded(s, n, free) && s.freeCount == |free| % TWO16
  }

  lemma HeapHead(s: Pool, n: nat, free: seq<nat>)
    requires Heap(s, n, free)
    ensures HeadOk(s) && (s.freeList == 0 <==> free == []) && s.freeList < TWO32 && s.stride > 0
  {
    hide Offset, WordAt, Distinct;
    if free != [] { InBuffer(s, n, free[0]); }
  }

  lemma HeapShape(s: Pool, n: nat, free: seq<nat>)
    requires Heap(s, n, free)
    ensures Geometry(s, n) && Distinct(free) && s.freeList == Link(s, free, 0)
    ensures forall i :: 0 <= i < |free| ==> free[i] < n
  {
    hide Geometry, Distinct, WordAt;
  }

  /** In pools of the same shape the same free list has the same head. */
  lemma SameHead(s: Pool, t: Pool, n: nat, free: seq<nat>, b: nat)
    requires Heap(s, n, free) && t.base == s.base && t.stride == s.stride
    ensures Addr(t, b) == Addr(s, b) && Link(t, free, 0) == s.freeList
  {
  }

  lemma ValidFits(s: Pool, n: nat, p: nat)
    requires Geometry(s, n) && AddressValid(s, p)
    ensures p - s.base + 4 <= |s.mem|
  {
    AddressValidIff(s, n, p);
    InBuffer(s, n, BlockAt(s, p));
  }

  /** An allocation hands out the first free block, and leaves the others free. */
  lemma AllocTakesFirst(s: Pool, n: nat, free: seq<nat>)
    requires Heap(s, n, free)
    ensures HeadOk(s)
    ensures var o := Alloc(s);
            && o.status == (if s.opsLeft == 0 then BUSY else if free == [] then EMPTY else OK)
            && (o.status != OK ==> o.pool == s)
            && (o.status == OK ==> o.block == Addr(s, free[0]) && o.pool.mem == s.mem && Heap(o.pool, n, free[1..]))
  {
    hide Offset, WordAt, Distinct, LoadWord;
    HeapHead(s, n, free);
    var o := Alloc(s);
    if o.status == OK {
      HeadWord(s, n, free);
      InBuffer(s, n, free[0]);
      Follow(s, n, free, 0);
      TailThreaded(s, o.pool, n, free);
    }
  }

  lemma HeadWord(s: Pool, n: nat, free: seq<nat>)
    requires Heap(s, n, free) && free != []
    ensures HeadOk(s) && WordAt(s, free[0]) == LoadWord(s.mem, s.freeList - s.base)
  {
    hide LoadWord, Distinct;
    HeapHead(s, n, free);
  }

  /** Moving the head to the second block leaves the tail threaded. */
  lemma TailThreaded(s: Pool, t: Pool, n: nat, free: seq<nat>)
    requires Threaded(s, n, free) && free != [] && t.freeList == Link(s, free, 1)
    requires t.base == s.base && t.end == s.end && t.stride == s.stride && t.mem == s.mem
    ensures Threaded(t, n, free[1..])
  {
    hide LoadWord;
    var rest := free[1..];
    assert forall i :: 0 <= i < |rest| ==> rest[i] == free[i + 1];
    assert forall b :: WordAt(t, b) == WordAt(s, b);
    assert forall b :: Addr(t, b) == Addr(s, b);
    hide WordAt, Addr, Offset;
  }

  /** Putting a block with the old head as its word in front of a list. */
  lemma PushThreaded(s: Pool, t: Pool, n: nat, free: seq<nat>, b: nat)
    requires Threaded(s, n, free) && b < n && b !in free && Geometry(t, n)
    requires t.base == s.base && t.stride == s.stride && t.freeList == Addr(s, b)
    requires WordAt(t, b) == s.freeList && forall c :: 0 <= c < n && c != b ==> WordAt(t, c) == WordAt(s, c)
    ensures Threaded(t, n, [b] + free)
  {
    var list := [b] + free;
    assert forall c :: Addr(t, c) == Addr(s, c);
    hide WordAt, Addr, Geometry, Offset;
    assert forall i :: 0 < i < |list| ==> list[i] == free[i - 1];
    assert free != [] ==> list[1] == free[0] && WordAt(t, b) == Addr(t, list[1]);
  }

  /** A freed block becomes the first free one. */
  lemma FreePutsFirst(s: Pool, n: nat, free: seq<nat>, b: nat)
    requires Heap(s, n, free) && b < n && b !in free && s.opsLeft > 0
    ensures s.stride > 0 && AddressValid(s, Addr(s, b)) && Addr(s, b) - s.base + 4 <= |s.mem|
    ensures var o := Free(s, Addr(s, b));
            o.status == OK && Heap(o.pool, n, [b] + free)
  {
    hide StoreWord, LoadWord, WordAt, Offset, Distinct;
    HeapHead(s, n, free);
    AddressValidIff(s, n, Addr(s, b));
    InBuffer(s, n, b);
    FreedWords(s, n, b);
    PushThreaded(s, Free(s, Addr(s, b)).pool, n, free, b);
  }

  lemma SameBytes(s: Pool, t: Pool, c: nat)
    requires t.stride == s.stride && |t.mem| == |s.mem| && Offset(s, c) + 4 <= |s.mem|
    requires t.mem[Offset(s, c)..Offset(s, c) + 4] == s.mem[Offset(s, c)..Offset(s, c) + 4]
    ensures WordAt(t, c) == WordAt(s, c)
  {
  }

  /** Storing a block's first word changes no other block's. */
  lemma StoredWords(s: Pool, n: nat, b: nat, v: nat)
    requires Geometry(s, n) && b < n && v < TWO32
    ensures Offset(s, b) + 4 <= |s.mem|
    ensures var t := s.(mem := StoreWord(s.mem, Offset(s, b), v));
            && Geometry(t, n) && WordAt(t, b) == v
            && forall c :: 0 <= c < n && c != b ==> WordAt(t, c) == WordAt(s, c)
  {
    InBuffer(s, n, b);
    var t := s.(mem := StoreWord(s.mem, Offset(s, b), v));
    LoadStored(s.mem, Offset(s, b), v);
    assert forall c :: Offset(t, c) == Offset(s, c);
    hide Offset, StoreWord, LoadWord;
    forall c | 0 <= c < n && c != b ensures WordAt(t, c) == WordAt(s, c) {
      InBuffer(s, n, c);
      Apart(s, b, c);
      LoadBeside(s.mem, Offset(s, b), v, Offset(s, c), 4);
      SameBytes(s, t, c);
    }
  }

  /** Giving a block back changes its first word only. */
  lemma FreedWords(s: Pool, n: nat, b: nat)
    requires Geometry(s, n) && b < n && s.opsLeft > 0 && s.freeList < TWO32
    requires s.stride > 0 && AddressValid(s, Addr(s, b)) && Addr(s, b) - s.base + 4 <= |s.mem|
    ensures var o := Free(s, Addr(s, b));
            && Geometry(o.pool, n) && WordAt(o.pool, b) == s.freeList
            && forall c :: 0 <= c < n && c != b ==> WordAt(o.pool, c) == WordAt(s, c)
  {
    StoredWords(s, n, b, s.freeList);
    var t, u := s.(mem := StoreWord(s.mem, Offset(s, b), s.freeList)), Free(s, Addr(s, b)).pool;
    assert u.mem == t.mem;
    hide StoreWord, LoadWord;
    assert forall c :: WordAt(u, c) == WordAt(t, c);
  }

  // ----- giving back a block that is not allocated -----

  ghost predicate Sound(s: Pool, n: nat) { exists free :: Threaded(s, n, free) }

  /** From the freed block on, the pointers run along the old list again. */
  lemma {:induction false} RunsAlong(s: Pool, t: Pool, n: nat, free: seq<nat>, list: seq<nat>, b: nat, k: nat, i: nat)
    requires Threaded(s, n, free) && Threaded(t, n, list) && t.base == s.base && t.stride == s.stride
    requires t.freeList == Addr(s, b) && WordAt(t, b) == s.freeList && b < n
    requires forall c :: 0 <= c < n && c != b ==> WordAt(t, c) == WordAt(s, c)
    requires k < |free| && free[k] == b && i <= k
    ensures i + 1 < |list| && list[0] == b && list[i + 1] == free[i]
    decreases i
  {
    assert forall c :: Addr(t, c) == Addr(s, c);
    hide Geometry, WordAt, Offset, Addr, Distinct;
    LinkIs(t, n, list, 0, b);
    if i == 0 {
      Follow(t, n, list, 0);
      LinkIs(t, n, list, 1, free[0]);
    } else {
      RunsAlong(s, t, n, free, list, b, k, i - 1);
      assert free[i - 1] != b;
      Follow(s, n, free, i - 1);
      Follow(t, n, list, i);
      LinkIs(t, n, list, i + 1, free[i]);
    }
  }

  /** A link that points at block `b` is followed by `b`. */
  lemma LinkIs(s: Pool, n: nat, list: seq<nat>, i: nat, b: nat)
    requires Geometry(s, n) && b < n && Link(s, list, i) == Addr(s, b)
    ensures i < |list| && list[i] == b
  {
    InBuffer(s, n, b);
    if i < |list| && list[i] != b {
      Apart(s, list[i], b);
    }
  }

  /**
   Giving back a block keeps the free list sound exactly when the block was not on it
   already: the address check does not notice a block given back twice, and the
   pointers then run in a circle.
   */
  lemma FreeSoundIff(s: Pool, n: nat, free: seq<nat>, b: nat)
    requires Heap(s, n, free) && b < n && s.opsLeft > 0
    ensures s.stride > 0 && AddressValid(s, Addr(s, b)) && Addr(s, b) - s.base + 4 <= |s.mem|
    ensures Free(s, Addr(s, b)).status == OK
    ensures Sound(Free(s, Addr(s, b)).pool, n) <==> b !in free
  {
    AddressValidIff(s, n, Addr(s, b));
    InBuffer(s, n, b);
    var t := Free(s, Addr(s, b)).pool;
    if b !in free {
      FreePutsFirst(s, n, free, b);
      assert Threaded(t, n, [b] + free);
    } else {
      var k :| 0 <= k < |free| && free[k] == b;
      HeapHead(s, n, free);
      FreedWords(s, n, b);
      forall list ensures !Threaded(t, n, list) {
        if Threaded(t, n, list) {
          RunsAlong(s, t, n, free, list, b, k, k);
        }
      }
    }
  }

  /** A write into an allocated block does not touch the free list. */
  lemma WriteKeeps(s: Pool, n: nat, free: seq<nat>, b: nat, at: nat, data: seq<byte>)
    requires Heap(s, n, free) && b < n && b !in free && at + |data| <= s.stride
    ensures Offset(s, b) + at + |data| <= |s.mem|
    ensures Heap(Write(s, b, at, data), n, free)
  {
    hide LoadWord;
    InBuffer(s, n, b);
    var t := Write(s, b, at, data);
    forall c | 0 <= c < n && c != b ensures WordAt(t, c) == WordAt(s, c) {
      InBuffer(s, n, c);
      Apart(s, b, c);
      WordsSame(s, t, c);
    }
    SameWords(s, t, n, free);
  }

  lemma WordsSame(s: Pool, t: Pool, c: nat)
    requires t.stride == s.stride && |t.mem| == |s.mem|
    requires forall i :: Offset(s, c) <= i < Offset(s, c) + 4 && i < |s.mem| ==> t.mem[i] == s.mem[i]
    ensures WordAt(t, c) == WordAt(s, c)
  {
    var o := Offset(s, c);
    assert o + 4 <= |s.mem| ==> t.mem[o..o + 4] == s.mem[o..o + 4];
  }

  lemma SameWords(s: Pool, t: Pool, n: nat, free: seq<nat>)
    requires Threaded(s, n, free) && Geometry(t, n) && t.freeList == s.freeList
    requires t.base == s.base && t.stride == s.stride
    requires forall i :: 0 <= i < |free| ==> WordAt(t, free[i]) == WordAt(s, free[i])
    ensures Threaded(t, n, free)
  {
    assert forall c :: Addr(t, c) == Addr(s, c);
    hide WordAt, Addr, Geometry, Offset;
  }

  // ----- initialisation -----

  function Iota(n: nat): (r: seq<nat>)
    ensures |r| == n && forall i :: 0 <= i < n ==> r[i] == i
  {
    seq(n, i => i)
  }

  /** A pool right after initialisation over memory whose first words are linked in order. */
  ghost predicate Fresh(s: Pool, n: nat, opsPerTick: nat) {
    && Heap(s, n, Iota(n))
    && s.blockCount == s.freeCount == s.minFree == n % TWO16
    && s.opsPerTick == s.opsLeft == if opsPerTick == 0 then n % TWO16 else opsPerTick
  }

  /** Blocks whose first words point at the next block, the last one's at null, form a fresh pool. */
  lemma LinkedInOrder(s: Pool, n: nat)
    requires Geometry(s, n) && n > 0 && s.freeList == s.base
    requires forall b :: 0 <= b < n ==> WordAt(s, b) == if b + 1 < n then Addr(s, b + 1) else 0
    ensures Threaded(s, n, Iota(n))
  {
    assert Addr(s, 0) == s.base;
    hide WordAt, Addr, Geometry;
  }
}
