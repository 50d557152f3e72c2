/** What a client gets from every run: the write/read round trip, isolation of files, sound chains. */
module FsTheorems {
  import opened Arithmetic
  import opened Bytes
  import opened Fat12
  import opened Volume
  import opened Directory
  import opened FileSystem
  import opened FsRuns

  function Concat(parts: seq<seq<byte>>): seq<byte> {
    if parts == [] then [] else Concat(parts[..|parts| - 1]) + parts[|parts| - 1]
  }

  function Sum(ns: seq<nat>): nat {
    if ns == [] then 0 else Sum(ns[..|ns| - 1]) + ns[|ns| - 1]
  }

  /** The bytes that the reads of a run returned, in order. */
  function BytesRead(outs: seq<Out>): seq<byte> {
    if outs == [] then []
    else BytesRead(outs[..|outs| - 1]) + if outs[|outs| - 1].Got? then outs[|outs| - 1].bytes else []
  }

  function Writes(k: nat, parts: seq<seq<byte>>): (r: seq<Op>)
    ensures |r| == |parts|
  {
    seq(|parts|, i requires 0 <= i < |parts| => Write(k, parts[i]))
  }

  function Reads(k: nat, sizes: seq<nat>): (r: seq<Op>)
    ensures |r| == |sizes|
  {
    seq(|sizes|, i requires 0 <= i < |sizes| => Read(k, sizes[i]))
  }

  // ----- running calls one after the other -----

  lemma {:induction false} DoAllConcat(a: Files, x: seq<Op>, y: seq<Op>)
    ensures var (b, outs) := DoAll(a, x);
            DoAll(a, x + y) == (DoAll(b, y).0, outs + DoAll(b, y).1)
    decreases |y|
  {
    hide Do;
    var (b, outs) := DoAll(a, x);
    if y == [] {
      assert x + y == x && outs + [] == outs;
    } else {
      var n := |y| - 1;
      DoAllConcat(a, x, y[..n]);
      assert (x + y)[..|x + y| - 1] == x + y[..n];
      var (c, outs2) := DoAll(b, y[..n]);
      var (_, out) := Do(c, y[n]);
      assert outs + (outs2 + [out]) == (outs + outs2) + [out];
    }
  }

  lemma {:induction false} BytesReadConcat(x: seq<Out>, y: seq<Out>)
    ensures BytesRead(x + y) == BytesRead(x) + BytesRead(y)
    decreases |y|
  {
    if y == [] {
      assert x + y == x;
    } else {
      var n := |y| - 1;
      BytesReadConcat(x, y[..n]);
      assert (x + y)[..|x + y| - 1] == x + y[..n] && (x + y)[|x + y| - 1] == y[n];
      var more := if y[n].Got? then y[n].bytes else [];
      assert BytesRead(x) + (BytesRead(y[..n]) + more) == (BytesRead(x) + BytesRead(y[..n])) + more;
    }
  }

  lemma {:induction false} OutsCount(a: Files, ops: seq<Op>)
    ensures |DoAll(a, ops).1| == |ops|
    decreases |ops|
  {
    if ops != [] {
      OutsCount(a, ops[..|ops| - 1]);
    }
  }

  // ----- chunked writes, chunked reads -----

  /** Slot `k` holds the file `name` with contents `bytes`. */
  ghost predicate Holding(a: Files, k: nat, name: seq<byte>, bytes: seq<byte>) {
    k < |a.slots| && a.slots[k] == File(name, bytes)
  }

  /** Only slot `k` may differ, and it holds a file of the same name in both. */
  ghost predicate SameElse(a: Files, b: Files, k: nat) {
    && k < |a.slots| == |b.slots| && a.slots[k].File? && b.slots[k].File? && a.slots[k].name == b.slots[k].name
    && b.slots == a.slots[k := b.slots[k]]
  }

  lemma WriteOne(a: Files, k: nat, name: seq<byte>, bytes: seq<byte>, data: seq<byte>)
    requires Holding(a, k, name, bytes) && k in a.pos
    ensures var (b, out) := Do(a, Write(k, data));
            && Holding(b, k, name, bytes + data) && k in b.pos && SameElse(a, b, k)
            && b.pos.Keys == a.pos.Keys && out == Done(FsOk)
  {
  }

  lemma DoneReadsNothing(outs: seq<Out>, status: FsStatus)
    ensures BytesRead([]) == [] && BytesRead(outs + [Done(status)]) == BytesRead(outs)
  {
    var all := outs + [Done(status)];
    assert all[..|all| - 1] == outs;
  }

  /** Any split into writes appends the concatenation. */
  lemma {:induction false} WriteAll(a: Files, k: nat, name: seq<byte>, bytes: seq<byte>, parts: seq<seq<byte>>)
    requires Holding(a, k, name, bytes) && k in a.pos
    ensures var (b, outs) := DoAll(a, Writes(k, parts));
            && Holding(b, k, name, bytes + Concat(parts)) && k in b.pos
            && SameElse(a, b, k) && b.pos.Keys == a.pos.Keys
            && BytesRead(outs) == []
    decreases |parts|
  {
    hide Do, BytesRead;
    if parts == [] {
      assert bytes + Concat(parts) == bytes;
      assert BytesRead([]) == [] by { DoneReadsNothing([], FsOk); }
    } else {
      var n := |parts| - 1;
      WriteAll(a, k, name, bytes, parts[..n]);
      assert Writes(k, parts)[..n] == Writes(k, parts[..n]);
      var (b, outs) := DoAll(a, Writes(k, parts[..n]));
      WriteOne(b, k, name, bytes + Concat(parts[..n]), parts[n]);
      DoneReadsNothing(outs, FsOk);
      assert bytes + (Concat(parts[..n]) + parts[n]) == (bytes + Concat(parts[..n])) + parts[n];
    }
  }

  lemma ReadOne(a: Files, k: nat, name: seq<byte>, bytes: seq<byte>, size: nat)
    requires Holding(a, k, name, bytes) && k in a.pos && a.pos[k] <= |bytes|
    ensures var p, m := a.pos[k], Available(a.pos[k], |bytes|, size);
            p + m <= |bytes| && Do(a, Read(k, size)) == (a.(pos := a.pos[k := p + m]), Got(bytes[p..p + m]))
  {
  }

  /** Any split into reads, from the start of the file, returns its bytes in order. */
  lemma {:induction false} ReadAll(a: Files, k: nat, name: seq<byte>, bytes: seq<byte>, sizes: seq<nat>)
    requires Holding(a, k, name, bytes) && k in a.pos && a.pos[k] == 0
    ensures var (b, outs) := DoAll(a, Reads(k, sizes));
            && Holding(b, k, name, bytes) && b.slots == a.slots && k in b.pos
            && b.pos[k] == Min(Sum(sizes), |bytes|)
            && BytesRead(outs) == bytes[..Min(Sum(sizes), |bytes|)]
    decreases |sizes|
  {
    hide Do;
    if sizes != [] {
      var n := |sizes| - 1;
      ReadAll(a, k, name, bytes, sizes[..n]);
      assert Reads(k, sizes)[..n] == Reads(k, sizes[..n]);
      var (b, outs) := DoAll(a, Reads(k, sizes[..n]));
      var p := Min(Sum(sizes[..n]), |bytes|);
      var m := Available(p, |bytes|, sizes[n]);
      ReadOne(b, k, name, bytes, sizes[n]);
      var got := Got(bytes[p..p + m]);
      assert (outs + [got])[..|outs|] == outs;
      assert bytes[..p] + bytes[p..p + m] == bytes[..p + m];
    }
  }

  /** Open, append in chunks, close, open again, read in chunks. */
  function RoundTripOps(name: seq<byte>, k: nat, parts: seq<seq<byte>>, sizes: seq<nat>): seq<Op> {
    [Open(name)] + Writes(k, parts) + [Close(k), Open(name)] + Reads(k, sizes)
  }

  /** One call, then the rest. */
  lemma DoFirst(a: Files, op: Op, rest: seq<Op>)
    ensures var (b, out) := Do(a, op);
            DoAll(a, [op] + rest) == (DoAll(b, rest).0, [out] + DoAll(b, rest).1)
  {
    hide Do;
    var one := [op];
    assert one[..|one| - 1] == [] && one[|one| - 1] == op;
    assert DoAll(a, []) == (a, []);
    assert [] + [Do(a, op).1] == [Do(a, op).1];
    assert DoAll(a, one) == (Do(a, op).0, [Do(a, op).1]);
    DoAllConcat(a, one, rest);
  }

  lemma {:induction false} FindSame(a: seq<Slot>, b: seq<Slot>, name: seq<byte>, k: nat)
    requires |a| == |b|
    requires forall i :: 0 <= i < |a| ==> a[i].File? == b[i].File? && (a[i].File? ==> a[i].name == b[i].name)
    ensures Find(a, name, k) == Find(b, name, k)
    decreases |a| - k
  {
    if k < |a| {
      FindSame(a, b, name, k + 1);
    }
  }

  lemma DoOpen(a: Files, name: seq<byte>, k: nat)
    requires Find(a.slots, Name83(name), 0) == k < |a.slots|
    ensures Do(a, Open(name)) == (a.(pos := a.pos[k := 0]), Done(FsOk))
  {
  }

  lemma DoClose(a: Files, k: nat)
    ensures Do(a, Close(k)) == (a.(pos := a.pos - {k}), Done(FsOk))
  {
  }

  lemma BytesReadDone(out: Out, outs: seq<Out>)
    requires out.Done?
    ensures BytesRead([out] + outs) == BytesRead(outs)
  {
    BytesReadConcat([out], outs);
    assert [out][..|[out]| - 1] == [];
    assert BytesRead([out]) == BytesRead([]) + [];
  }

  lemma SimpleRoundTrip(a: Files, name: seq<byte>, k: nat, bytes: seq<byte>, parts: seq<seq<byte>>, sizes: seq<nat>)
    requires Find(a.slots, Name83(name), 0) == k && k !in a.pos && Holding(a, k, Name83(name), bytes)
    ensures var whole := bytes + Concat(parts);
            var (b, outs) := DoAll(a, RoundTripOps(name, k, parts, sizes));
            && BytesRead(outs) == whole[..Min(Sum(sizes), |whole|)]
            && Holding(b, k, Name83(name), whole) && SameElse(a, b, k)
  {
    hide Find, Do, DoAll, Name83, BytesRead, Sum, Concat, Writes, Reads;
    var name83 := Name83(name);
    var w, r := Writes(k, parts), Reads(k, sizes);
    var whole := bytes + Concat(parts);
    var ops3 := [Open(name)] + r;
    var ops2 := [Close(k)] + ops3;
    assert RoundTripOps(name, k, parts, sizes) == [Open(name)] + (w + ops2);

    DoOpen(a, name, k);
    var a1 := a.(pos := a.pos[k := 0]);
    DoFirst(a, Open(name), w + ops2);
    DoAllConcat(a1, w, ops2);
    WriteAll(a1, k, name83, bytes, parts);
    var (a2, o2) := DoAll(a1, w);
    DoFirst(a2, Close(k), ops3);
    DoClose(a2, k);
    var a3 := a2.(pos := a2.pos - {k});
    FindSame(a.slots, a3.slots, name83, 0);
    DoFirst(a3, Open(name), r);
    DoOpen(a3, name, k);
    var a4 := a3.(pos := a3.pos[k := 0]);
    ReadAll(a4, k, name83, whole, sizes);
    var (a5, o5) := DoAll(a4, r);
    BytesReadDone(Done(FsOk), o5);
    BytesReadDone(Done(FsOk), [Done(FsOk)] + o5);
    BytesReadConcat(o2, [Done(FsOk)] + ([Done(FsOk)] + o5));
    BytesReadDone(Done(FsOk), o2 + ([Done(FsOk)] + ([Done(FsOk)] + o5)));
    assert DoAll(a, RoundTripOps(name, k, parts, sizes))
        == (a5, [Done(FsOk)] + (o2 + ([Done(FsOk)] + ([Done(FsOk)] + o5))));
    assert BytesRead(o2) + BytesRead(o5) == BytesRead(o5);
  }

  /**
   The round trip on the device: open a file, append it in any chunks, close it, open
   it again and read it in any chunks. The reads return the old contents followed by
   everything that was written, as far as they ask for it, and no other file changed.
   */
  lemma WriteReadRoundTrip(L: Layout, ss: seq<State>, outs: seq<Out>, name: seq<byte>, k: nat, bytes: seq<byte>,
                           parts: seq<seq<byte>>, sizes: seq<nat>)
    requires Run(L, ss, RoundTripOps(name, k, parts, sizes), outs)
    requires Inv(L, ss[0])
    requires Find(SlotsOf(L, ss[0]), Name83(name), 0) == k < DIR_SLOTS && k !in ss[0].open
    requires SlotOf(L, ss[0], k) == File(Name83(name), bytes)
    ensures var whole := bytes + Concat(parts);
            BytesRead(outs) == whole[..Min(Sum(sizes), |whole|)]
    ensures var s' := ss[|ss| - 1];
            && SlotOf(L, s', k) == File(Name83(name), bytes + Concat(parts))
            && forall j :: 0 <= j < DIR_SLOTS && j != k ==> SlotOf(L, s', j) == SlotOf(L, ss[0], j)
  {
    hide Find, Do, DoAll, Name83, BytesRead, Sum, Concat, SlotOf, Inv, Run;
    var ops := RoundTripOps(name, k, parts, sizes);
    RunLength(L, ss, ops, outs);
    RunRefines(L, ss, ops, outs);
    SimpleRoundTrip(Abs(L, ss[0]), name, k, bytes, parts, sizes);
  }

  lemma RunLength(L: Layout, ss: seq<State>, ops: seq<Op>, outs: seq<Out>)
    requires Run(L, ss, ops, outs)
    ensures |ss| == |ops| + 1
  {
  }

  // ----- isolation -----

  /** The call names slot `j`, or can put a file into it or take one out of it. */
  predicate Touches(a: Files, op: Op, j: nat) {
    match op
    case Create(name) => FindFree(a.slots, 0) == j
    case Open(name) => false
    case Write(k, data) => k == j
    case Read(k, size) => false
    case Update(k) => false
    case Close(k) => false
    case Delete(name) => Find(a.slots, Name83(name), 0) == j
  }

  /** Calls on other files leave the name, the size and every byte of a file as they are. */
  lemma {:induction false} Isolation(L: Layout, ss: seq<State>, ops: seq<Op>, outs: seq<Out>, j: nat)
    requires Run(L, ss, ops, outs) && j < DIR_SLOTS
    requires Inv(L, ss[0])
    requires forall i :: 0 <= i < |ops| ==> !Touches(Abs(L, ss[i]), ops[i], j)
    ensures SlotOf(L, ss[|ops|], j) == SlotOf(L, ss[0], j)
    decreases |ops|
  {
    hide Inv, Do, Step, Allowed, SlotOf, Touches;
    if ops != [] {
      var n := |ops| - 1;
      assert Run(L, ss[..n + 1], ops[..n], outs[..n]);
      Isolation(L, ss[..n + 1], ops[..n], outs[..n], j);
      RunRefines(L, ss, ops, outs);
      assert Call(L, ss[n], ops[n], ss[n + 1], outs[n]);
      StepRefines(L, ss[n], ops[n], ss[n + 1], outs[n]);
      DoElsewhere(Abs(L, ss[n]), ops[n], j);
    }
  }

  lemma DoElsewhere(a: Files, op: Op, j: nat)
    requires j < |a.slots| && !Touches(a, op, j)
    ensures |Do(a, op).0.slots| == |a.slots| && Do(a, op).0.slots[j] == a.slots[j]
  {
  }

  // ----- chains over a run -----

  /**
   In every state of every run: the chain of each file is without repetition and
   ends in an end mark, shares no cluster with another chain, and has between
   size-rounded-up and size-rounded-down-plus-one clusters.
   */
  lemma ChainsOverRuns(L: Layout, ss: seq<State>, ops: seq<Op>, outs: seq<Out>, i: nat, k: nat)
    requires Run(L, ss, ops, outs) && Inv(L, ss[0])
    requires i < |ss| && k in ss[i].chain
    ensures SoundChain(L, ss[i], k)
  {
    hide Inv, SoundChain;
    RunRefines(L, ss, ops, outs);
    FileChain(L, ss[i], k);
  }

  ghost predicate SoundChain(L: Layout, s: State, k: nat)
    requires k in s.chain
  {
    && LayoutOk(L, |s.d|) && k < DIR_SLOTS
    && var ch, dir := s.chain[k], DirOf(L, s.d);
       var first, size, b := FirstIn(dir, s.open, k), SizeIn(dir, s.open, k), ClusterBytes(L);
       && (size + b - 1) / b <= |ch| <= size / b + 1
       && |ch| < L.maxCluster
       && (forall x, y :: 0 <= x < y < |ch| ==> ch[x] != ch[y])
       && (first != 0 ==> IsChain(Table(L, s.d), ch) && ch[0] == first)
       && (first == 0 ==> size == 0 && ch == [])
       && forall j :: j in s.chain && j != k ==> Disjoint(ch, s.chain[j])
  }

  lemma FileChain(L: Layout, s: State, k: nat)
    requires Inv(L, s) && k in s.chain
    ensures SoundChain(L, s, k)
  {
    hide DirOf, Sectors, TableOf, NameOf, DirInv, FirstIn, SizeIn;
    FilesOkAt(L, s, k);
    ChainLengthBounds(L, s.d, FirstIn(DirOf(L, s.d), s.open, k), SizeIn(DirOf(L, s.d), s.open, k), s.chain[k]);
  }

  // ----- clusters are taken once -----

  /** The clusters that a call adds to a file's chain. */
  ghost function Gained(s: State, op: Op, s': State): seq<nat> {
    if op.Write? && op.slot in s.chain && op.slot in s'.chain && |s.chain[op.slot]| <= |s'.chain[op.slot]|
    then s'.chain[op.slot][|s.chain[op.slot]|..] else []
  }

  lemma TableKept(L: Layout, d: Disk, k: nat, e: Dirent)
    requires LayoutOk(L, |d|) && k < DIR_SLOTS
    ensures Table(L, PutSlot(L, d, k, e)) == Table(L, d)
  {
    hide TableOf, PutSlot, DirOf;
    PutSlotOne(L, d, k, e);
  }

  /** Every call takes a front part of the free list and gives nothing back: deleting frees no cluster. */
  lemma FreeStep(L: Layout, s: State, op: Op, s': State, out: Out)
    requires Call(L, s, op, s', out)
    ensures LayoutOk(L, |s'.d|) && FreeList(Table(L, s.d)) == Gained(s, op, s') + FreeList(Table(L, s'.d))
  {
    hide FreeList, TableOf, PutSlot, DirOf, Name83, NewEntry, MarkDeleted, WithInfo, ScanFind, ScanStop, ScanFree,
      FileBytes, Sectors, HasRoom, ClustersAfter, IsChain;
    var dir, free := DirOf(L, s.d), FreeList(Table(L, s.d));
    assert [] + free == free;
    match op {
      case Create(name) => if s'.d != s.d { TableKept(L, s.d, ScanFree(dir, 0), NewEntry(Name83(name))); }
      case Open(name) =>
      case Write(k, data) =>
        var ch, ch' := s.chain[k], s'.chain[k];
        assert ch'[|ch|..] == free[..|ch'| - |ch|];
      case Read(k, size) =>
      case Update(k) => RecordedTable(L, s, k, s.open, s', out);
      case Close(k) => RecordedTable(L, s, k, s.open - {k}, s', out);
      case Delete(name) =>
        var r := ScanStop(dir, Name83(name), 0);
        if r < DIR_SLOTS { TableKept(L, s.d, r, MarkDeleted(dir[r])); }
    }
  }

  lemma RecordedTable(L: Layout, s: State, k: nat, open': map<nat, Handle>, s': State, out: Out)
    requires LayoutOk(L, |s.d|) && k in s.open && Recorded(L, s, k, open', s', out)
    ensures LayoutOk(L, |s'.d|) && Table(L, s'.d) == Table(L, s.d)
  {
    hide TableOf, PutSlot, DirOf, Name83, WithInfo, ScanStop;
    var dir, h := DirOf(L, s.d), s.open[k];
    var r := ScanStop(dir, Name83(h.filename), 0);
    if r < DIR_SLOTS {
      TableKept(L, s.d, r, WithInfo(dir[r], h.firstCluster, h.fileSize));
    }
  }

  /** Over any stretch of a run, deletes included, the free list only loses clusters from its front. */
  lemma {:induction false} FreeOverRuns(L: Layout, ss: seq<State>, ops: seq<Op>, outs: seq<Out>, i: nat, j: nat)
    requires Run(L, ss, ops, outs) && i <= j < |ss| && LayoutOk(L, |ss[0].d|)
    ensures LayoutOk(L, |ss[i].d|) && LayoutOk(L, |ss[j].d|)
    ensures exists m ::
      0 <= m <= |FreeList(Table(L, ss[i].d))| && FreeList(Table(L, ss[j].d)) == FreeList(Table(L, ss[i].d))[m..]
    decreases j
  {
    hide FreeList, TableOf, Step, Allowed, Gained;
    if j == i {
      if i > 0 {
        FreeOverRuns(L, ss, ops, outs, i - 1, i - 1);
        assert Call(L, ss[i - 1], ops[i - 1], ss[i], outs[i - 1]);
        FreeStep(L, ss[i - 1], ops[i - 1], ss[i], outs[i - 1]);
      }
      assert FreeList(Table(L, ss[i].d)) == FreeList(Table(L, ss[i].d))[0..];
    } else {
      FreeOverRuns(L, ss, ops, outs, i, j - 1);
      assert Call(L, ss[j - 1], ops[j - 1], ss[j], outs[j - 1]);
      FreeStep(L, ss[j - 1], ops[j - 1], ss[j], outs[j - 1]);
      var all, free := FreeList(Table(L, ss[i].d)), FreeList(Table(L, ss[j].d));
      var m :| 0 <= m <= |all| && FreeList(Table(L, ss[j - 1].d)) == all[m..];
      var n := |Gained(ss[j - 1], ops[j - 1], ss[j])|;
      assert all[m..][n..] == all[m + n..] && free == all[m..][n..];
    }
  }

  /** No cluster is handed out twice in a run: what two steps gain is disjoint, whatever is deleted in between. */
  lemma NeverTakenTwice(L: Layout, ss: seq<State>, ops: seq<Op>, outs: seq<Out>, i: nat, j: nat)
    requires Run(L, ss, ops, outs) && i < j < |ops| && LayoutOk(L, |ss[0].d|)
    ensures Disjoint(Gained(ss[i], ops[i], ss[i + 1]), Gained(ss[j], ops[j], ss[j + 1]))
  {
    hide FreeFrom, TableOf, Step, Allowed, Gained;
    FreeOverRuns(L, ss, ops, outs, i, i);
    FreeOverRuns(L, ss, ops, outs, i + 1, j);
    assert Call(L, ss[i], ops[i], ss[i + 1], outs[i]) && Call(L, ss[j], ops[j], ss[j + 1], outs[j]);
    FreeStep(L, ss[i], ops[i], ss[i + 1], outs[i]);
    FreeStep(L, ss[j], ops[j], ss[j + 1], outs[j]);
    var t := Table(L, ss[i].d);
    FreeFromExact(t, 2);
    var all, g, h := FreeList(t), Gained(ss[i], ops[i], ss[i + 1]), Gained(ss[j], ops[j], ss[j + 1]);
    var rest := FreeList(Table(L, ss[i + 1].d));
    var m :| 0 <= m <= |rest| && FreeList(Table(L, ss[j].d)) == rest[m..];
    FrontAndLater(all, g, rest, m, h, FreeList(Table(L, ss[j + 1].d)));
  }

  lemma FrontAndLater(all: seq<nat>, front: seq<nat>, rest: seq<nat>, m: nat, later: seq<nat>, tail: seq<nat>)
    requires forall i, j :: 0 <= i < j < |all| ==> all[i] < all[j]
    requires all == front + rest && m <= |rest| && rest[m..] == later + tail
    ensures Disjoint(front, later)
  {
    forall c | c in front ensures c !in later {
      var x :| 0 <= x < |front| && front[x] == c;
      forall y | 0 <= y < |later| ensures later[y] != c {
        assert later[y] == rest[m..][y] == all[|front| + m + y] && all[x] == c;
      }
    }
  }

  // ----- names that the handle loses -----

  /** What `close` leaves on the device, by the name the handle remembers. */
  function Closed(L: Layout, d: Disk, h: Handle): Disk
    requires LayoutOk(L, |d|)
  {
    var r := ScanStop(DirOf(L, d), Name83(h.filename), 0);
    if r < DIR_SLOTS then PutSlot(L, d, r, WithInfo(DirOf(L, d)[r], h.firstCluster, h.fileSize)) else d
  }

  /** Recording sizes leaves names, and so every lookup, alone. */
  lemma LookupKept(dir: seq<Dirent>, r: nat, first: nat, size: nat, name: seq<byte>)
    requires DirOk(dir) && r < |dir| && Live(dir[r]) && first < 0x1_0000 && size < 0x1_0000_0000
    ensures ScanFind(dir[r := WithInfo(dir[r], first, size)], name, 0) == ScanFind(dir, name, 0)
  {
    hide ScanFind, WithInfo;
    var dir' := dir[r := WithInfo(dir[r], first, size)];
    WithInfoFields(dir[r], first, size);
    DirOkKept(dir, r, WithInfo(dir[r], first, size));
    ScansAgree(dir, name);
    ScansAgree(dir', name);
    var k, k' := ScanFind(dir, name, 0), ScanFind(dir', name, 0);
    assert forall i :: 0 <= i < |dir| ==> Live(dir'[i]) == Live(dir[i]) && NameOf(dir'[i]) == NameOf(dir[i]);
    FirstMatchUnique(dir, name, k, k');
  }

  /**
   A file is opened, `n` bytes are appended, and it is closed. It is found under its name
   as before, and shows its new size exactly if the handle remembers the name it is
   stored under, or nothing was appended; otherwise it shows the size it had.
   */
  lemma ReopenedSizeIff(L: Layout, d: Disk, name: seq<byte>, k: nat, h: Handle, n: nat)
    requires LayoutOk(L, |d|) && DirOk(DirOf(L, d)) && ScanFind(DirOf(L, d), Name83(name), 0) == k < DIR_SLOTS
    requires h.filename == Remembered(name) && h.fileSize == SizeOf(DirOf(L, d)[k]) + n
    requires h.firstCluster < 0x1_0000 && h.fileSize < 0x1_0000_0000
    ensures var dir' := DirOf(L, Closed(L, d, h));
            && ScanFind(dir', Name83(name), 0) == k
            && (SizeOf(dir'[k]) == h.fileSize <==> Name83(Remembered(name)) == Name83(name) || n == 0)
            && (Name83(Remembered(name)) != Name83(name) ==> dir'[k] == DirOf(L, d)[k])
  {
    hide DirOf, PutSlot, ScanFind, ScanStop, Name83, WithInfo, SizeOf, NameOf, DirOk, Live;
    var dir := DirOf(L, d);
    ScansAgree(dir, Name83(name));
    ScansAgree(dir, Name83(h.filename));
    var r := ScanStop(dir, Name83(h.filename), 0);
    FirstMatchFacts(dir, Name83(name), k);
    FirstMatchFacts(dir, Name83(h.filename), r);
    if r < DIR_SLOTS {
      PutSlotOne(L, d, r, WithInfo(dir[r], h.firstCluster, h.fileSize));
      LookupKept(dir, r, h.firstCluster, h.fileSize, Name83(name));
      WithInfoFields(dir[r], h.firstCluster, h.fileSize);
    }
  }

  // ----- what the simple calls answer -----

  /** Some file has this stored name. */
  ghost predicate Named(a: Files, name83: seq<byte>) {
    exists k :: 0 <= k < |a.slots| && a.slots[k].File? && a.slots[k].name == name83
  }

  ghost predicate FirstNamed(a: Files, name83: seq<byte>, k: nat) {
    && k < |a.slots| && a.slots[k].File? && a.slots[k].name == name83
    && forall i :: 0 <= i < k ==> !(a.slots[i].File? && a.slots[i].name == name83)
  }

  /** Slot `k` holds no file any more, and all others are the same. */
  ghost predicate OneFileLess(a: Files, b: Files, k: nat) {
    k < |a.slots| == |b.slots| && !b.slots[k].File? && forall i :: 0 <= i < |a.slots| && i != k ==>
      b.slots[i] == a.slots[i]
  }

  ghost predicate FirstWithout(a: Files, k: nat) {
    k < |a.slots| && !a.slots[k].File? && forall i :: 0 <= i < k ==> a.slots[i].File?
  }

  /**
   Create succeeds exactly if the name has one to twelve bytes and some slot holds no
   file, used before or not; it fills the first such slot with an empty file.
   */
  lemma CreateAnswers(a: Files, name: seq<byte>)
    ensures var (b, out) := Do(a, Create(name));
            && (out == Done(FsOk) <==> 1 <= |name| <= 12 && exists k :: 0 <= k < |a.slots| && !a.slots[k].File?)
            && (out == Done(FsInvalid) <==> |name| == 0 || |name| > 12)
            && (out == Done(FsOk) || out == Done(FsInvalid) || out == Done(FsFull))
            && (out != Done(FsOk) ==> b == a)
            && (out == Done(FsOk) ==>
                  && Named(b, Name83(name))
                  && exists k: nat :: FirstWithout(a, k) && b == a.(slots := a.slots[k := File(Name83(name), [])]))
  {
    hide FindFree, Name83;
    FindFreeIs(a.slots, 0);
    var (b, out) := Do(a, Create(name));
    if out == Done(FsOk) {
      assert FirstWithout(a, FindFree(a.slots, 0)) && b.slots[FindFree(a.slots, 0)] == File(Name83(name), []);
    }
  }

  /** Open and delete succeed exactly if a file has the name; delete takes away the first such file, and only that. */
  lemma OpenDeleteAnswer(a: Files, name: seq<byte>)
    ensures var (b, out) := Do(a, Open(name));
            && out == Done(if Named(a, Name83(name)) then FsOk else FsNotFound) && b.slots == a.slots
    ensures var (b, out) := Do(a, Delete(name));
            && out == Done(if Named(a, Name83(name)) then FsOk else FsNotFound) && b.pos == a.pos
            && if out != Done(FsOk) then b == a
               else exists k: nat :: FirstNamed(a, Name83(name), k) && OneFileLess(a, b, k)
  {
    hide Find, Name83;
    FindIs(a.slots, Name83(name), 0);
    var k := Find(a.slots, Name83(name), 0);
    if k < |a.slots| {
      assert Named(a, Name83(name));
      assert FirstNamed(a, Name83(name), k) && OneFileLess(a, Do(a, Delete(name)).0, k);
    }
  }

  /** Writing moves the position on by what is written. */
  lemma {:induction false} WritesMove(a: Files, k: nat, name: seq<byte>, bytes: seq<byte>, parts: seq<seq<byte>>)
    requires Holding(a, k, name, bytes) && k in a.pos
    ensures var b := DoAll(a, Writes(k, parts)).0; k in b.pos && b.pos[k] == a.pos[k] + |Concat(parts)|
    decreases |parts|
  {
    hide SameElse;
    if parts != [] {
      var n := |parts| - 1;
      WritesMove(a, k, name, bytes, parts[..n]);
      WriteAll(a, k, name, bytes, parts[..n]);
      assert Writes(k, parts)[..n] == Writes(k, parts[..n]);
    }
  }

  /**
   A file is opened and appended to, and then read without closing it: the read starts as
   many bytes into the file as were written, wherever these lie.
   */
  lemma ReadAfterWrite(a: Files, name: seq<byte>, k: nat, bytes: seq<byte>, parts: seq<seq<byte>>, size: nat)
    requires Find(a.slots, Name83(name), 0) == k && Holding(a, k, Name83(name), bytes)
    ensures var whole, n := bytes + Concat(parts), |Concat(parts)|;
            var (b, outs) := DoAll(a, [Open(name)] + (Writes(k, parts) + [Read(k, size)]));
            && |outs| == |parts| + 2 && n + Min(size, |whole| - n) <= |whole|
            && outs[|outs| - 1] == Got(whole[n..n + Min(size, |whole| - n)])
  {
    hide Find, Name83, DoAll, Concat, Writes;
    var w, r := Writes(k, parts), [Read(k, size)];
    var a1 := a.(pos := a.pos[k := 0]);
    DoOpen(a, name, k);
    DoFirst(a, Open(name), w + r);
    DoAllConcat(a1, w, r);
    WriteAll(a1, k, Name83(name), bytes, parts);
    WritesMove(a1, k, Name83(name), bytes, parts);
    OutsCount(a1, w);
    var b := DoAll(a1, w).0;
    ReadOne(b, k, Name83(name), bytes + Concat(parts), size);
    OneCall(b, Read(k, size));
  }

  lemma OneCall(a: Files, op: Op)
    ensures DoAll(a, [op]) == (Do(a, op).0, [Do(a, op).1])
  {
    hide Do;
    assert [op][..|[op]| - 1] == [];
    assert [] + [Do(a, op).1] == [Do(a, op).1];
  }
}
