/** The memory pool over its byte buffer, and the registry whose tick renews the pools' budgets. */
module Mempool {
  import opened Bytes
  import opened MempoolSpec

  /** One of the four bytes of a stored word. */
  function ByteOf(v: nat, i: nat): byte
    requires i < 4
  {
    Le32(v)[i]
  }

  class MemPool {
    var buffer: array<byte>
    var base: nat
    var end: nat
    var blockSize: nat
    var blockStride: nat
    var blockCount: nat
    var freeCount: nat
    var minFreeCount: nat
    var opsPerTick: nat
    var opsLeft: nat
    var freeList: nat

    /** How many blocks there are, and which are free, in the order of the list; in the proof only. */
    ghost var n: nat
    ghost var free: seq<nat>

    constructor ()
      ensures fresh(buffer)
    {
      buffer := new byte[0];
      base, end, blockSize, blockStride, blockCount, freeCount := 0, 0, 0, 0, 0, 0;
      minFreeCount, opsPerTick, opsLeft, freeList, n, free := 0, 0, 0, 0, 0, [];
    }

    ghost function View(): Pool
      reads this, buffer
    {
      Pool(base, end, blockSize, blockStride, blockCount, freeCount, minFreeCount, opsPerTick, opsLeft, freeList,
        buffer[..])
    }

    ghost predicate Valid()
      reads this, buffer
    {
      Heap(View(), n, free)
    }

    method Load(off: nat) returns (v: nat)
      requires off + 4 <= buffer.Length
      ensures v == LoadWord(buffer[..], off)
    {
      var b0: nat, b1: nat, b2: nat, b3: nat := buffer[off], buffer[off + 1], buffer[off + 2], buffer[off + 3];
      v := b0 + 0x100 * b1 + 0x1_0000 * b2 + 0x100_0000 * b3;
      assert buffer[..][off..off + 4] == [buffer[off], buffer[off + 1]] + [buffer[off + 2], buffer[off + 3]];
    }

    method Store(off: nat, v: nat)
      requires off + 4 <= buffer.Length
      modifies buffer
      ensures buffer[..] == StoreWord(old(buffer[..]), off, v)
    {
      buffer[off], buffer[off + 1] := ByteOf(v, 0), ByteOf(v, 1);
      buffer[off + 2], buffer[off + 3] := ByteOf(v, 2), ByteOf(v, 3);
      assert forall i :: 0 <= i < 4 ==> buffer[off + i] == Le32(v)[i];
    }

    /** Cuts the buffer at address `at` into blocks and threads the free list through them. */
    method Init(memory: array?<byte>, at: nat, size: nat, count: nat, ops: nat, registry: Registry)
      requires memory != null && size > 0 && count > 0 ==>
               && 0 < at && size <= TWO32 - 4
               && at + AlignUp(size, 4) * count <= TWO32 && AlignUp(size, 4) * count <= memory.Length
      modifies this, memory, registry
      ensures memory == null || size == 0 || count == 0 ==>
              unchanged(this) && unchanged(registry) && (memory != null ==> unchanged(memory))
      ensures memory != null && size > 0 && count > 0 ==>
              && buffer == memory && n == count && free == Iota(count)
              && base == at && blockSize == size && blockStride == AlignUp(size, 4)
              && Valid() && Fresh(View(), count, ops)
              && registry.pools ==
                (if |old(registry.pools)| < MAX_POOLS then old(registry.pools) + [this] else old(registry.pools))
    {
      hide Threaded, WordAt, Addr;
      if memory == null || size == 0 || count == 0 {
        return;
      }
      AlignUpExact(size);
      buffer := memory;
      base := at;
      blockStride := AlignUp(size, 4);
      blockSize := size;
      blockCount := count % TWO16;
      end := base + blockStride * count;
      freeCount := count % TWO16;
      minFreeCount := count % TWO16;
      opsPerTick := if ops == 0 then count % TWO16 else ops;
      opsLeft := opsPerTick;
      freeList := base;
      n, free := count, Iota(count);
      ThreadBlocks(count);
      LinkedInOrder(View(), count);
      var _ := registry.Register(this);
    }

    /** Links the first word of each block to the next block. */
    method ThreadBlocks(count: nat)
      requires Geometry(View(), count)
      modifies buffer
      ensures Geometry(View(), count)
      ensures forall b :: 0 <= b < count ==> WordAt(View(), b) == if b + 1 < count then Addr(View(), b + 1) else 0
    {
      hide WordAt, Addr, Offset;
      var i := 0;
      while i < count
        invariant i <= count && Geometry(View(), count)
        invariant forall b :: 0 <= b < i ==> WordAt(View(), b) == NextOf(View(), count, b)
      {
        ghost var s := View();
        InBuffer(s, count, i);
        var current := i * blockStride;
        var next := if i + 1 < count then base + current + blockStride else 0;
        NextAddr(s, count, i);
        StoredWords(s, count, i, next);
        Store(current, next);
        assert View() == s.(mem := StoreWord(s.mem, Offset(s, i), next));
        SameNexts(s, View(), count);
        i := i + 1;
      }
    }

    method AllocTry() returns (status: Status, block: nat)
      requires Valid()
      modifies this`freeList, this`freeCount, this`minFreeCount, this`opsLeft, this`free
      ensures Valid() && HeadOk(old(View()))
      ensures var o := Alloc(old(View())); View() == o.pool && status == o.status && block == o.block
      ensures free == if status == OK then old(free)[1..] else old(free)
    {
      hide Heap, LoadWord;
      AllocTakesFirst(View(), n, free);
      HeapHead(View(), n, free);
      if opsLeft == 0 {
        return BUSY, 0;
      } else if freeList == 0 {
        return EMPTY, 0;
      }
      block := freeList;
      freeList := Load(freeList - base);
      freeCount := (freeCount - 1) % TWO16;
      if freeCount < minFreeCount {
        minFreeCount := freeCount;
      }
      opsLeft := opsLeft - 1;
      free := free[1..];
      status := OK;
    }

    method AddressOk(ptr: nat) returns (ok: bool)
      requires blockStride > 0
      ensures ok == AddressValid(View(), ptr)
    {
      if ptr == 0 {
        return false;
      }
      if ptr < base || ptr >= end {
        return false;
      }
      if (ptr - base) % blockStride != 0 {
        return false;
      }
      return true;
    }

    /** Gives back what `ptr` points at. The pool stays sound if that is no block, or a block in use. */
    method FreeTry(ptr: nat) returns (status: Status)
      requires Valid()
      modifies this`freeList, this`freeCount, this`opsLeft, this`free, buffer
      ensures blockStride > 0 && (AddressValid(old(View()), ptr) ==> ptr - base + 4 <= |old(View()).mem|)
      ensures var o := Free(old(View()), ptr); View() == o.pool && status == o.status
      ensures free == if status == OK then [BlockAt(old(View()), ptr)] + old(free) else old(free)
      ensures status == OK && BlockAt(old(View()), ptr) in old(free) <==> !Valid()
    {
      hide Heap, StoreWord, Offset;
      ghost var s := View();
      FreeExact(s, ptr);
      if ptr == 0 {
        return INVALID;
      }
      var ok := AddressOk(ptr);
      if !ok {
        return INVALID;
      } else if opsLeft == 0 {
        return BUSY;
      }
      Store(ptr - base, freeList);
      freeList := ptr;
      freeCount := (freeCount + 1) % TWO16;
      opsLeft := opsLeft - 1;
      free := [BlockAt(s, ptr)] + free;
      status := OK;
      assert View() == Free(s, ptr).pool;
    }

    lemma FreeExact(s: Pool, ptr: nat)
      requires Heap(s, n, free)
      ensures s.stride > 0 && (AddressValid(s, ptr) ==> ptr - s.base + 4 <= |s.mem|)
      ensures var o := Free(s, ptr);
              if o.status != OK then o.pool == s
              else Heap(o.pool, n, [BlockAt(s, ptr)] + free) <==> BlockAt(s, ptr) !in free
    {
      if AddressValid(s, ptr) {
        AddressValidIff(s, n, ptr);
        ValidFits(s, n, ptr);
        var b := BlockAt(s, ptr);
        if s.opsLeft > 0 {
          if b !in free {
            FreePutsFirst(s, n, free, b);
          } else {
            assert ([b] + free)[0] == b && exists i :: 1 <= i < |free| + 1 && ([b] + free)[i] == b by {
              var i :| 0 <= i < |free| && free[i] == b;
              assert ([b] + free)[i + 1] == b;
            }
          }
        }
      }
    }

    /** The holder of block `b` stores bytes into it. */
    method WriteBlock(b: nat, at: nat, data: seq<byte>)
      requires Valid() && b < n && b !in free && at + |data| <= blockStride
      modifies buffer
      ensures Valid() && Offset(old(View()), b) + at + |data| <= |old(View()).mem|
      ensures View() == Write(old(View()), b, at, data)
    {
      ghost var s := View();
      WriteKeeps(s, n, free, b, at, data);
      hide Heap;
      var off := b * blockStride + at;
      var i := 0;
      while i < |data|
        invariant i <= |data| && off + |data| <= buffer.Length && buffer.Length == |s.mem|
        invariant forall j :: 0 <= j < buffer.Length ==>
          buffer[j] == if off <= j < off + i then data[j - off] else s.mem[j]
      {
        buffer[off + i] := data[i];
        i := i + 1;
      }
      assert buffer[..] == Overlay(s.mem, off, data);
    }
  }

  /** What the first word of block `b` of a fresh pool holds. */
  function NextOf(s: Pool, count: nat, b: nat): nat {
    if b + 1 < count then Addr(s, b + 1) else 0
  }

  lemma SameNexts(s: Pool, t: Pool, count: nat)
    requires t.base == s.base && t.stride == s.stride
    ensures forall b :: NextOf(t, count, b) == NextOf(s, count, b)
  {
  }

  lemma NextAddr(s: Pool, count: nat, i: nat)
    requires Geometry(s, count) && i < count
    ensures i * s.stride == Offset(s, i)
    ensures i + 1 < count ==> s.base + Offset(s, i) + s.stride == Addr(s, i + 1) < TWO32
  {
    assert (i + 1) * s.stride == i * s.stride + s.stride;
    if i + 1 < count { InBuffer(s, count, i + 1); }
  }

  const MAX_POOLS := 4

  /** The pools whose budgets the tick renews: at most the first four initialised. */
  class Registry {
    var pools: seq<MemPool>

    constructor ()
      ensures pools == []
    {
      pools := [];
    }

    method Register(pool: MemPool) returns (r: int)
      modifies this
      ensures r == if |old(pools)| >= MAX_POOLS then -1 else 0
      ensures pools == if |old(pools)| >= MAX_POOLS then old(pools) else old(pools) + [pool]
    {
      if |pools| >= MAX_POOLS {
        return -1;
      }
      pools := pools + [pool];
      return 0;
    }

    /** Every registered pool, and no other, gets its budget back. */
    method TickAll()
      modifies (set p | p in pools)`opsLeft
      ensures forall p :: p in pools ==> p.View() == Tick(old(p.View()))
      ensures forall p :: p in pools && old(p.Valid()) ==> p.Valid()
    {
      var i := 0;
      while i < |pools|
        invariant i <= |pools|
        invariant forall p :: p in pools[..i] ==> p.opsLeft == p.opsPerTick
        invariant forall p :: p in pools && p !in pools[..i] ==> p.opsLeft == old(p.opsLeft)
      {
        pools[i].opsLeft := pools[i].opsPerTick;
        assert pools[..i + 1] == pools[..i] + [pools[i]];
        i := i + 1;
      }
      assert pools[..i] == pools;
      forall p | p in pools && old(p.Valid()) ensures p.Valid() {
        SameWords(old(p.View()), p.View(), p.n, p.free);
      }
    }
  }
}
