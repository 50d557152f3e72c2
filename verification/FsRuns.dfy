/**
 Whole runs of the file system against a simple one: a table of named byte strings.

 The driver's state is the device, the open handles and, in the proof only, the
 cluster chain of every file. A step is one call, related to the state exactly as
 the contracts of `FileSystem` and `DirectoryOps` relate it.
 */
module FsRuns {
  import opened Arithmetic
  import opened Bytes
  import opened Fat12
  import opened Volume
  import opened Directory
  import opened FileSystem
  import opened DirectoryOps

  // ----- the simple file system -----

  datatype Slot = Unused | Gone | File(name: seq<byte>, bytes: seq<byte>)

  /** Directory slots with whole contents, and the position of every open file. */
  datatype Files = Files(slots: seq<Slot>, pos: map<nat, nat>)

  datatype Op =
    | Create(name: seq<byte>)
    | Open(name: seq<byte>)
    | Write(slot: nat, data: seq<byte>)
    | Read(slot: nat, size: nat)
    | Update(slot: nat)
    | Close(slot: nat)
    | Delete(name: seq<byte>)

  datatype Out = Done(status: FsStatus) | Got(bytes: seq<byte>)

  /** The first file named `name83`, or the number of slots. */
  function Find(slots: seq<Slot>, name83: seq<byte>, k: nat): nat
    decreases |slots| - k
  {
    if k >= |slots| then |slots|
    else if slots[k].File? && slots[k].name == name83 then k
    else Find(slots, name83, k + 1)
  }

  /** The first slot that holds no file, or the number of slots. */
  function FindFree(slots: seq<Slot>, k: nat): nat
    decreases |slots| - k
  {
    if k >= |slots| then |slots| else if !slots[k].File? then k else FindFree(slots, k + 1)
  }

  lemma {:induction false} FindIs(slots: seq<Slot>, name: seq<byte>, k: nat)
    requires k <= |slots|
    ensures var q := Find(slots, name, k);
            && k <= q <= |slots|
            && (q < |slots| ==> slots[q].File? && slots[q].name == name)
            && forall i :: k <= i < q ==> !(slots[i].File? && slots[i].name == name)
    decreases |slots| - k
  {
    if k < |slots| {
      FindIs(slots, name, k + 1);
    }
  }

  lemma {:induction false} FindFreeIs(slots: seq<Slot>, k: nat)
    requires k <= |slots|
    ensures k <= FindFree(slots, k) <= |slots|
    ensures FindFree(slots, k) < |slots| ==> !slots[FindFree(slots, k)].File?
    ensures forall i :: k <= i < FindFree(slots, k) ==> slots[i].File?
    decreases |slots| - k
  {
    if k < |slots| {
      FindFreeIs(slots, k + 1);
    }
  }

  /** What each call does to the simple file system, and what it returns. */
  function Do(a: Files, op: Op): (Files, Out) {
    match op
    case Create(name) =>
      var r := FindFree(a.slots, 0);
      if !NameLengthOk(name) then (a, Done(FsInvalid))
      else if r >= |a.slots| then (a, Done(FsFull))
      else (a.(slots := a.slots[r := File(Name83(name), [])]), Done(FsOk))
    case Open(name) =>
      var r := Find(a.slots, Name83(name), 0);
      if r >= |a.slots| then (a, Done(FsNotFound)) else (a.(pos := a.pos[r := 0]), Done(FsOk))
    case Write(k, data) =>
      if k >= |a.slots| || !a.slots[k].File? || k !in a.pos then (a, Done(FsError))
      else (Files(a.slots[k := File(a.slots[k].name, a.slots[k].bytes + data)], a.pos[k := a.pos[k] + |data|]),
        Done(FsOk))
    case Read(k, size) =>
      if k >= |a.slots| || !a.slots[k].File? || k !in a.pos then (a, Done(FsError))
      else
        var n := Available(a.pos[k], |a.slots[k].bytes|, size);
        (a.(pos := a.pos[k := a.pos[k] + n]), Got(Slice(a.slots[k].bytes, a.pos[k], n)))
    case Update(k) => (a, Done(FsOk))
    case Close(k) => (a.(pos := a.pos - {k}), Done(FsOk))
    case Delete(name) =>
      var r := Find(a.slots, Name83(name), 0);
      if r >= |a.slots| then (a, Done(FsNotFound)) else (a.(slots := a.slots[r := Gone]), Done(FsOk))
  }

  function Slice(s: seq<byte>, from: nat, n: nat): seq<byte> {
    if from + n <= |s| then s[from..from + n] else []
  }

  // ----- the driver's state -----

  datatype State = State(d: Disk, open: map<nat, Handle>, chain: map<nat, seq<nat>>)

  /** First cluster and size of the file in slot `k`: the handle's while it is open, else the entry's. */
  function FirstIn(dir: seq<Dirent>, open: map<nat, Handle>, k: nat): nat
    requires k < |dir|
  {
    if k in open then open[k].firstCluster else FirstOf(dir[k])
  }

  function SizeIn(dir: seq<Dirent>, open: map<nat, Handle>, k: nat): nat
    requires k < |dir|
  {
    if k in open then open[k].fileSize else SizeOf(dir[k])
  }

  /** A handle is the handle of its slot: same stored name, first match for it, position inside the file. */
  ghost predicate HandleOk(dir: seq<Dirent>, h: Handle, k: nat)
    requires k < |dir|
  {
    NameOf(dir[k]) == Name83(h.filename) && FirstMatch(dir, NameOf(dir[k]), k) && h.position <= h.fileSize
  }

  /** The directory is well formed; files in it, chains and handles go together. */
  ghost predicate DirInv(dir: seq<Dirent>, open: map<nat, Handle>, chain: map<nat, seq<nat>>) {
    && |dir| == DIR_SLOTS
    && DirOk(dir)
    && (forall k: nat :: k in chain <==> k < DIR_SLOTS && Live(dir[k]))
    && (forall k :: k in open ==> k in chain)
    && (forall k :: k in open ==> HandleOk(dir, open[k], k))
  }

  ghost predicate Disjoint(a: seq<nat>, b: seq<nat>) {
    forall x :: x in a ==> x !in b
  }

  /** No two files share a cluster. */
  ghost predicate ChainsApart(chain: map<nat, seq<nat>>) {
    forall j, k :: j in chain && k in chain && j != k ==> Disjoint(chain[j], chain[k])
  }

  /** Every file is a proper chain of its own. */
  ghost predicate FilesOk(L: Layout, d: Disk, dir: seq<Dirent>, open: map<nat, Handle>, chain: map<nat, seq<nat>>)
    requires L.fatStart < |d|
  {
    forall k :: k in chain ==> k < |dir| && FileOk(L, d, FirstIn(dir, open, k), SizeIn(dir, open, k), chain[k])
  }

  ghost predicate Inv(L: Layout, s: State) {
    && LayoutOk(L, |s.d|)
    && DirInv(DirOf(L, s.d), s.open, s.chain)
    && ChainsApart(s.chain)
    && FilesOk(L, s.d, DirOf(L, s.d), s.open, s.chain)
  }

  /** The contents of a slot, read off the device. */
  function SlotOf(L: Layout, s: State, k: nat): Slot
    requires k < DIR_SLOTS
  {
    var dir := DirOf(L, s.d);
    if dir[k][0] == 0 then Unused
    else if !Live(dir[k]) || k !in s.chain then Gone
    else File(NameOf(dir[k]), FileBytes(s.d, Sectors(L, s.chain[k]), SizeIn(dir, s.open, k)))
  }

  function PosOf(open: map<nat, Handle>): map<nat, nat> {
    map k | k in open :: open[k].position
  }

  function SlotsOf(L: Layout, s: State): (r: seq<Slot>)
    ensures |r| == DIR_SLOTS
    ensures forall k :: 0 <= k < DIR_SLOTS ==> r[k] == SlotOf(L, s, k)
  {
    seq(DIR_SLOTS, k requires 0 <= k < DIR_SLOTS => SlotOf(L, s, k))
  }

  /** The simple file system that a state stands for. */
  function Abs(L: Layout, s: State): (a: Files)
  {
    Files(SlotsOf(L, s), PosOf(s.open))
  }

  // ----- steps -----

  /** What is asked of a caller: one handle per file, no delete or second create under an open handle, room. */
  ghost predicate Allowed(L: Layout, s: State, op: Op)
    requires LayoutOk(L, |s.d|)
  {
    var dir := DirOf(L, s.d);
    match op
    case Create(name) =>
      && 0 !in name && (|name| > 0 ==> name[0] != DELETED)
      && forall k :: k in s.open ==> k < DIR_SLOTS && NameOf(dir[k]) != Name83(name)
    case Open(name) => Name83(Remembered(name)) == Name83(name) && ScanFind(dir, Name83(name), 0) !in s.open
    case Write(k, data) => k in s.open && k in s.chain && HasRoom(L, s.d, s.open[k].fileSize, s.chain[k], |data|)
    case Read(k, size) => k in s.open
    case Update(k) => k in s.open
    case Close(k) => k in s.open
    case Delete(name) => 0 !in name && ScanStop(dir, Name83(name), 0) !in s.open
  }

  /** The handle's first cluster and size have gone into its entry; the open handles are now `open'`. */
  ghost predicate Recorded(L: Layout, s: State, k: nat, open': map<nat, Handle>, s': State, out: Out)
    requires LayoutOk(L, |s.d|) && k in s.open
  {
    var dir, h := DirOf(L, s.d), s.open[k];
    var r := ScanStop(dir, Name83(h.filename), 0);
    if r >= DIR_SLOTS then s' == s.(open := open') && out == Done(FsNotFound)
    else
      && s' == State(PutSlot(L, s.d, r, WithInfo(dir[r], h.firstCluster, h.fileSize)), open', s.chain)
      && out == Done(FsOk)
  }

  /** One call, as the contracts of the driver's methods describe it. */
  ghost predicate Step(L: Layout, s: State, op: Op, s': State, out: Out)
    requires LayoutOk(L, |s.d|)
  {
    var dir := DirOf(L, s.d);
    match op
    case Create(name) =>
      var r := ScanFree(dir, 0);
      if !NameLengthOk(name) then s' == s && out == Done(FsInvalid)
      else if r >= DIR_SLOTS then s' == s && out == Done(FsFull)
      else s' == State(PutSlot(L, s.d, r, NewEntry(Name83(name))), s.open, s.chain[r := []]) && out == Done(FsOk)
    case Open(name) =>
      var r := ScanFind(dir, Name83(name), 0);
      if r >= DIR_SLOTS then s' == s && out == Done(FsNotFound)
      else s' == s.(open := s.open[r := OpenedHandle(dir[r], name)]) && out == Done(FsOk)
    case Write(k, data) =>
      && k in s.open && k in s'.open && k in s'.chain && k in s.chain
      && Appended(L, s.d, s.open[k].fileSize, s.chain[k], data, s'.d, s'.chain[k])
      && s'.open == s.open[k := Advanced(s.open[k], s'.chain[k], |data|)]
      && s'.chain == s.chain[k := s'.chain[k]]
      && out == Done(FsOk)
    case Read(k, size) =>
      && k in s.open && k in s.chain
      && var h := s.open[k];
         var n := Available(h.position, h.fileSize, size);
         s' == s.(open := s.open[k := h.(position := h.position + n)])
         && out == Got(Slice(FileBytes(s.d, Sectors(L, s.chain[k]), h.fileSize), h.position, n))
    case Update(k) => k in s.open && Recorded(L, s, k, s.open, s', out)
    case Close(k) => k in s.open && Recorded(L, s, k, s.open - {k}, s', out)
    case Delete(name) =>
      var r := ScanStop(dir, Name83(name), 0);
      if r >= DIR_SLOTS then s' == s && out == Done(FsNotFound)
      else s' == State(PutSlot(L, s.d, r, MarkDeleted(dir[r])), s.open, s.chain - {r}) && out == Done(FsOk)
  }

  /** The handle after an append of `n` bytes that left the chain `ch`. */
  function Advanced(h: Handle, ch: seq<nat>, n: nat): Handle
  {
    h.(firstCluster := if |ch| > 0 then ch[0] else 0,
       currentCluster := if h.firstCluster == 0 && |ch| > 0 then ch[0] else h.currentCluster,
       fileSize := h.fileSize + n,
       position := h.position + n)
  }

  // ----- what a rewritten entry leaves alone -----

  /** Outside the directory nothing has changed. */
  ghost predicate RootOnly(L: Layout, d: Disk, d': Disk) {
    && |d'| == |d|
    && forall i :: 0 <= i < |d| && !(L.rootStart <= i < L.rootStart + ROOT_SECTORS) ==> d'[i] == d[i]
  }

  lemma RootOnlyFile(L: Layout, d: Disk, d': Disk, first: nat, size: nat, ch: seq<nat>)
    requires LayoutOk(L, |d|) && RootOnly(L, d, d') && FileOk(L, d, first, size, ch)
    ensures InVolume(L, ch)
    ensures FileOk(L, d', first, size, ch)
    ensures FileBytes(d', Sectors(L, ch), size) == FileBytes(d, Sectors(L, ch), size)
  {
    hide TableOf, FileBytes, Sectors;
    SectorsOnDevice(L, |d|, ch);
    FileBytesFrame(d, d', Sectors(L, ch), size);
  }

  /** Apart from slot `r`, entries, handles and chains are the same; chain `r` is gone, empty or the same. */
  ghost predicate SameBut(L: Layout, s: State, s': State, r: nat)
    requires LayoutOk(L, |s.d|)
  {
    && RootOnly(L, s.d, s'.d)
    && r < DIR_SLOTS
    && DirOf(L, s'.d) == DirOf(L, s.d)[r := DirOf(L, s'.d)[r]]
    && s'.chain - {r} == s.chain - {r}
    && s'.open - {r} == s.open - {r}
    && (r in s'.chain ==> s'.chain[r] == [] || (r in s.chain && s'.chain[r] == s.chain[r]))
  }

  lemma MapBut<T>(m: map<nat, T>, m': map<nat, T>, r: nat)
    ensures m' - {r} == m - {r} <==> forall k: nat :: k != r ==> (k in m' <==> k in m) && (k in m ==> m'[k] == m[k])
  {
    if m' - {r} == m - {r} {
      forall k: nat | k != r ensures (k in m' <==> k in m) && (k in m ==> m'[k] == m[k]) {
        assert (k in m' <==> k in m' - {r}) && (k in m <==> k in m - {r});
        assert k in m ==> (m' - {r})[k] == m'[k] && (m - {r})[k] == m[k];
      }
    }
  }

  /** A file in another slot is the same file. */
  lemma FileKept(L: Layout, s: State, s': State, r: nat, k: nat)
    requires Inv(L, s) && SameBut(L, s, s', r) && k != r && k in s.chain
    ensures k in s'.chain && s'.chain[k] == s.chain[k] && k < DIR_SLOTS
    ensures FileOk(L, s'.d, FirstIn(DirOf(L, s'.d), s'.open, k), SizeIn(DirOf(L, s'.d), s'.open, k), s.chain[k])
    ensures FileBytes(s'.d, Sectors(L, s.chain[k]), SizeIn(DirOf(L, s'.d), s'.open, k))
         == FileBytes(s.d, Sectors(L, s.chain[k]), SizeIn(DirOf(L, s.d), s.open, k))
  {
    hide DirOf, FileOk, FileBytes, Sectors, NameOf, TableOf;
    MapBut(s.chain, s'.chain, r);
    MapBut(s.open, s'.open, r);
    var dir := DirOf(L, s.d);
    RootOnlyFile(L, s.d, s'.d, FirstIn(dir, s.open, k), SizeIn(dir, s.open, k), s.chain[k]);
  }

  /** Rewriting an entry keeps every file, if the rewritten slot holds a file or none. */
  lemma FilesKept(L: Layout, s: State, s': State, r: nat)
    requires Inv(L, s) && SameBut(L, s, s', r)
    requires r in s'.chain ==>
      FileOk(L, s'.d, FirstIn(DirOf(L, s'.d), s'.open, r), SizeIn(DirOf(L, s'.d), s'.open, r), s'.chain[r])
    ensures FilesOk(L, s'.d, DirOf(L, s'.d), s'.open, s'.chain)
    ensures ChainsApart(s'.chain)
  {
    hide DirOf, FileOk, FileBytes, Sectors, NameOf, TableOf, DirInv;
    MapBut(s.chain, s'.chain, r);
    var dir' := DirOf(L, s'.d);
    forall k | k in s'.chain
      ensures k < |dir'| && FileOk(L, s'.d, FirstIn(dir', s'.open, k), SizeIn(dir', s'.open, k), s'.chain[k])
    {
      if k != r {
        FileKept(L, s, s', r, k);
      }
    }
  }

  lemma SlotKept(L: Layout, s: State, s': State, r: nat, k: nat)
    requires Inv(L, s) && SameBut(L, s, s', r) && k < DIR_SLOTS && k != r
    ensures SlotOf(L, s', k) == SlotOf(L, s, k)
  {
    hide DirOf, FileOk, FileBytes, Sectors, NameOf, FilesOk, ChainsApart, TableOf, DirInv;
    MapBut(s.chain, s'.chain, r);
    if k in s.chain {
      FileKept(L, s, s', r, k);
    }
  }

  /** Rewriting one entry keeps the invariant and changes one slot of the simple file system. */
  lemma OneSlot(L: Layout, s: State, s': State, r: nat)
    requires Inv(L, s) && SameBut(L, s, s', r)
    requires DirInv(DirOf(L, s'.d), s'.open, s'.chain)
    requires r in s'.chain ==>
      FileOk(L, s'.d, FirstIn(DirOf(L, s'.d), s'.open, r), SizeIn(DirOf(L, s'.d), s'.open, r), s'.chain[r])
    ensures Inv(L, s')
    ensures SlotsOf(L, s') == SlotsOf(L, s)[r := SlotOf(L, s', r)]
  {
    hide DirOf, FileOk, FileBytes, Sectors, NameOf, FilesOk, ChainsApart, TableOf, DirInv, SlotOf;
    FilesKept(L, s, s', r);
    forall k | 0 <= k < DIR_SLOTS && k != r ensures SlotOf(L, s', k) == SlotOf(L, s, k) {
      SlotKept(L, s, s', r, k);
    }
  }

  // ----- the two directories scan alike -----

  lemma {:induction false} FindIsScan(L: Layout, s: State, name: seq<byte>, k: nat)
    requires Inv(L, s) && k <= DIR_SLOTS
    requires forall i :: 0 <= i < k ==> DirOf(L, s.d)[i][0] != 0
    ensures Find(Abs(L, s).slots, name, k) == ScanStop(DirOf(L, s.d), name, k)
    decreases DIR_SLOTS - k
  {
    if k < DIR_SLOTS {
      if DirOf(L, s.d)[k][0] == 0 {
        NothingAfter(L, s, name, k);
      } else {
        FindIsScan(L, s, name, k + 1);
      }
    }
  }

  lemma {:induction false} NothingAfter(L: Layout, s: State, name: seq<byte>, k: nat)
    requires Inv(L, s) && k <= DIR_SLOTS
    requires forall i :: k <= i < DIR_SLOTS ==> !Live(DirOf(L, s.d)[i])
    ensures Find(Abs(L, s).slots, name, k) == DIR_SLOTS
    decreases DIR_SLOTS - k
  {
    if k < DIR_SLOTS {
      NothingAfter(L, s, name, k + 1);
    }
  }

  lemma {:induction false} FindFreeIsScan(L: Layout, s: State, k: nat)
    requires Inv(L, s) && k <= DIR_SLOTS
    ensures FindFree(Abs(L, s).slots, k) == ScanFree(DirOf(L, s.d), k)
    decreases DIR_SLOTS - k
  {
    if k < DIR_SLOTS {
      FindFreeIsScan(L, s, k + 1);
    }
  }

  // ----- what each call keeps of the directory -----

  lemma DirInvFacts(dir: seq<Dirent>, open: map<nat, Handle>, chain: map<nat, seq<nat>>)
    requires DirInv(dir, open, chain)
    ensures DirOk(dir) && |dir| == DIR_SLOTS
    ensures forall k :: k in open ==> k in chain
    ensures forall k: nat :: k in chain <==> k < DIR_SLOTS && Live(dir[k])
  {
  }

  /** Filling the first free entry under a name no handle uses. */
  lemma CreateDirInv(dir: seq<Dirent>, open: map<nat, Handle>, chain: map<nat, seq<nat>>, e: Dirent)
    requires DirInv(dir, open, chain) && ScanFree(dir, 0) < DIR_SLOTS
    requires Live(e) && forall k :: k in open ==> k < DIR_SLOTS && NameOf(dir[k]) != NameOf(e)
    ensures DirInv(dir[ScanFree(dir, 0) := e], open, chain[ScanFree(dir, 0) := []])
    ensures ScanFree(dir, 0) !in chain && ScanFree(dir, 0) !in open
  {
    hide NameOf, Name83;
    ScanFreeFirst(dir, 0);
    DirOkKept(dir, ScanFree(dir, 0), e);
  }

  /** Opening, or moving, the handle of an entry. */
  lemma OpenDirInv(dir: seq<Dirent>, open: map<nat, Handle>, chain: map<nat, seq<nat>>, r: nat, h: Handle)
    requires DirInv(dir, open, chain) && r < DIR_SLOTS && Live(dir[r]) && HandleOk(dir, h, r)
    ensures DirInv(dir, open[r := h], chain)
  {
    hide NameOf, Name83;
  }

  /** Rewriting the entry of a handle under its name, whether the handle is dropped or not. */
  lemma CloseDirInv(dir: seq<Dirent>, open: map<nat, Handle>, chain: map<nat, seq<nat>>, r: nat, e: Dirent)
    requires DirInv(dir, open, chain) && r in open && r < DIR_SLOTS
    requires NameOf(e) == NameOf(dir[r]) && e[0] == dir[r][0]
    ensures DirInv(dir[r := e], open - {r}, chain) && DirInv(dir[r := e], open, chain)
  {
    hide NameOf, Name83;
    DirOkKept(dir, r, e);
  }

  /** Deleting an entry that has no handle. */
  lemma DeleteDirInv(dir: seq<Dirent>, open: map<nat, Handle>, chain: map<nat, seq<nat>>, r: nat)
    requires DirInv(dir, open, chain) && r < DIR_SLOTS && Live(dir[r]) && r !in open
    ensures DirInv(dir[r := MarkDeleted(dir[r])], open, chain - {r})
  {
    hide NameOf, Name83;
    DirOkKept(dir, r, MarkDeleted(dir[r]));
  }

  /** A handle finds its own entry again. */
  lemma HandleFindsSlot(dir: seq<Dirent>, open: map<nat, Handle>, chain: map<nat, seq<nat>>, k: nat)
    requires DirInv(dir, open, chain) && k in open
    ensures k < DIR_SLOTS && k in chain && Live(dir[k]) && HandleOk(dir, open[k], k)
    ensures ScanStop(dir, Name83(open[k].filename), 0) == k
  {
    hide NameOf, Name83;
    ScanStopFirst(dir, Name83(open[k].filename), 0);
    FirstMatchUnique(dir, Name83(open[k].filename), k, ScanStop(dir, Name83(open[k].filename), 0));
  }

  lemma FirstMatchUnique(dir: seq<Dirent>, name: seq<byte>, r: nat, q: nat)
    requires FirstMatch(dir, name, r) && FirstMatch(dir, name, q)
    ensures r == q
  {
  }

  // ----- each call refines its simple counterpart -----

  lemma FilesOkAt(L: Layout, s: State, k: nat)
    requires Inv(L, s) && k in s.chain
    ensures k < DIR_SLOTS && Live(DirOf(L, s.d)[k])
    ensures FileOk(L, s.d, FirstIn(DirOf(L, s.d), s.open, k), SizeIn(DirOf(L, s.d), s.open, k), s.chain[k])
  {
    hide DirOf, FileOk, NameOf, TableOf;
  }

  /** A rewritten entry that still stands for the same file. */
  lemma SameSlots(L: Layout, s: State, s': State, k: nat)
    requires k < DIR_SLOTS
    requires SlotsOf(L, s') == SlotsOf(L, s)[k := SlotOf(L, s', k)]
    requires SlotOf(L, s', k) == SlotOf(L, s, k)
    ensures SlotsOf(L, s') == SlotsOf(L, s)
  {
    hide SlotOf;
    assert SlotsOf(L, s)[k := SlotsOf(L, s)[k]] == SlotsOf(L, s);
  }

  lemma HandleInChain(L: Layout, s: State, k: nat)
    requires Inv(L, s) && k in s.open
    ensures k in s.chain && s.open[k].position <= s.open[k].fileSize
  {
    hide DirOf, NameOf, FirstMatch;
    DirInvHandle(DirOf(L, s.d), s.open, s.chain, k);
  }

  lemma DirInvHandle(dir: seq<Dirent>, open: map<nat, Handle>, chain: map<nat, seq<nat>>, k: nat)
    requires DirInv(dir, open, chain) && k in open
    ensures k in chain && open[k].position <= open[k].fileSize
  {
    assert HandleOk(dir, open[k], k);
  }

  lemma CreateRefines(L: Layout, s: State, name: seq<byte>, s': State, out: Out)
    requires Inv(L, s) && Allowed(L, s, Create(name)) && Step(L, s, Create(name), s', out)
    ensures Inv(L, s') && Do(Abs(L, s), Create(name)) == (Abs(L, s'), out)
  {
    hide DirOf, PutSlot, NewEntry, Name83, FileOk, FileBytes, DirInv, NameOf, TableOf, SlotsOf, PosOf, ScanFree,
      FindFree;
    var dir := DirOf(L, s.d);
    var r := ScanFree(dir, 0);
    FindFreeIsScan(L, s, 0);
    if NameLengthOk(name) && r < DIR_SLOTS {
      var e := NewEntry(Name83(name));
      NameIsLive(name);
      NewEntryFields(Name83(name));
      PutSlotOne(L, s.d, r, e);
      CreateDirInv(dir, s.open, s.chain, e);
      MapBut(s.chain, s'.chain, r);
      EmptyFileOk(L, s'.d);
      OneSlot(L, s, s', r);
      assert SlotOf(L, s', r) == File(Name83(name), []);
    }
  }

  lemma EmptyFileOk(L: Layout, d: Disk)
    requires L.fatStart < |d|
    ensures FileOk(L, d, 0, 0, [])
  {
  }

  lemma PosOfPut(open: map<nat, Handle>, k: nat, h: Handle)
    ensures PosOf(open[k := h]) == PosOf(open)[k := h.position]
    ensures k in open ==> k in PosOf(open) && PosOf(open)[k] == open[k].position
  {
  }

  lemma FirstMatchFacts(dir: seq<Dirent>, name: seq<byte>, r: nat)
    requires FirstMatch(dir, name, r)
    ensures r <= |dir| && (r < |dir| ==> Live(dir[r]) && NameOf(dir[r]) == name)
  {
  }

  lemma OpenRefines(L: Layout, s: State, name: seq<byte>, s': State, out: Out)
    requires Inv(L, s) && Allowed(L, s, Open(name)) && Step(L, s, Open(name), s', out)
    ensures Inv(L, s') && Do(Abs(L, s), Open(name)) == (Abs(L, s'), out)
  {
    hide DirOf, Name83, FileOk, FileBytes, DirInv, NameOf, TableOf, FirstOf, SizeOf, ScanFind, ScanStop, SlotsOf,
      PosOf, Find, FirstMatch;
    var dir := DirOf(L, s.d);
    var r := ScanFind(dir, Name83(name), 0);
    DirInvFacts(dir, s.open, s.chain);
    assert |dir| == DIR_SLOTS;
    ScansAgree(dir, Name83(name));
    FirstMatchFacts(dir, Name83(name), r);
    FindIsScan(L, s, Name83(name), 0);
    if r < DIR_SLOTS {
      FilesOkAt(L, s, r);
      OpenDirInv(dir, s.open, s.chain, r, OpenedHandle(dir[r], name));
      MapBut(s.open, s'.open, r);
      OneSlot(L, s, s', r);
      PosOfPut(s.open, r, s'.open[r]);
      SameSlots(L, s, s', r);
    }
  }

  lemma ReadRefines(L: Layout, s: State, k: nat, size: nat, s': State, out: Out)
    requires Inv(L, s) && Allowed(L, s, Read(k, size)) && Step(L, s, Read(k, size), s', out)
    ensures Inv(L, s') && Do(Abs(L, s), Read(k, size)) == (Abs(L, s'), out)
  {
    hide DirOf, Name83, FileOk, FileBytes, DirInv, NameOf, TableOf, FirstOf, SizeOf, SlotsOf, FirstMatch, ScanStop;
    var dir := DirOf(L, s.d);
    HandleFindsSlot(dir, s.open, s.chain, k);
    FilesOkAt(L, s, k);
    OpenDirInv(dir, s.open, s.chain, k, s'.open[k]);
    MapBut(s.open, s'.open, k);
    OneSlot(L, s, s', k);
    PosOfPut(s.open, k, s'.open[k]);
    SameSlots(L, s, s', k);
  }

  /** Sizes and cluster numbers of files on a volume fit the fields of an entry. */
  lemma FieldsFit(L: Layout, d: Disk, first: nat, size: nat, ch: seq<nat>)
    requires LayoutOk(L, |d|) && FileOk(L, d, first, size, ch)
    ensures first < 0x1_0000 && size < 0x1_0000_0000
  {
    hide Sectors, TableOf, SectorOf;
    if first != 0 {
      ChainLengthBounds(L, d, first, size, ch);
      SectorsLength(L, ch);
      ProductAtMost(|ch|, L.spc, 341, 256);
    }
  }

  /** Recording a handle in its entry keeps every file as it is. */
  lemma RecordedKeeps(L: Layout, s: State, k: nat, open': map<nat, Handle>, s': State, out: Out)
    requires Inv(L, s) && k in s.open && Recorded(L, s, k, open', s', out)
    requires open' == s.open || open' == s.open - {k}
    ensures Inv(L, s') && SlotsOf(L, s') == SlotsOf(L, s) && out == Done(FsOk) && s'.open == open'
  {
    hide DirOf, Name83, FileOk, FileBytes, DirInv, NameOf, TableOf, FirstOf, SizeOf, PutSlot, WithInfo, ScanStop,
      FirstMatch, SlotsOf;
    var dir, h := DirOf(L, s.d), s.open[k];
    HandleFindsSlot(dir, s.open, s.chain, k);
    FilesOkAt(L, s, k);
    FieldsFit(L, s.d, h.firstCluster, h.fileSize, s.chain[k]);
    var e := WithInfo(dir[k], h.firstCluster, h.fileSize);
    WithInfoFields(dir[k], h.firstCluster, h.fileSize);
    PutSlotOne(L, s.d, k, e);
    CloseDirInv(dir, s.open, s.chain, k, e);
    MapBut(s.open, s'.open, k);
    RootOnlyFile(L, s.d, s'.d, h.firstCluster, h.fileSize, s.chain[k]);
    OneSlot(L, s, s', k);
    SameSlots(L, s, s', k);
  }

  lemma CloseRefines(L: Layout, s: State, k: nat, s': State, out: Out)
    requires Inv(L, s) && Allowed(L, s, Close(k)) && Step(L, s, Close(k), s', out)
    ensures Inv(L, s') && Do(Abs(L, s), Close(k)) == (Abs(L, s'), out)
  {
    hide Inv, SlotsOf, Recorded;
    RecordedKeeps(L, s, k, s.open - {k}, s', out);
    assert PosOf(s'.open) == PosOf(s.open) - {k};
  }

  lemma UpdateRefines(L: Layout, s: State, k: nat, s': State, out: Out)
    requires Inv(L, s) && Allowed(L, s, Update(k)) && Step(L, s, Update(k), s', out)
    ensures Inv(L, s') && Do(Abs(L, s), Update(k)) == (Abs(L, s'), out)
  {
    hide Inv, SlotsOf, Recorded;
    RecordedKeeps(L, s, k, s.open, s', out);
  }

  lemma DeleteRefines(L: Layout, s: State, name: seq<byte>, s': State, out: Out)
    requires Inv(L, s) && Allowed(L, s, Delete(name)) && Step(L, s, Delete(name), s', out)
    ensures Inv(L, s') && Do(Abs(L, s), Delete(name)) == (Abs(L, s'), out)
  {
    hide Find, FilesOk, ChainsApart, FirstMatch, DirOf, Name83, FileOk, FileBytes, DirInv, NameOf, TableOf, FirstOf,
      SizeOf, PutSlot, ScanFind, ScanStop, SlotsOf, PosOf;
    var dir := DirOf(L, s.d);
    var r := ScanStop(dir, Name83(name), 0);
    DirInvFacts(dir, s.open, s.chain);
    ScansAgree(dir, Name83(name));
    FindIsScan(L, s, Name83(name), 0);
    if r < DIR_SLOTS {
      PutSlotOne(L, s.d, r, MarkDeleted(dir[r]));
      DeleteDirInv(dir, s.open, s.chain, r);
      MapBut(s.chain, s'.chain, r);
      OneSlot(L, s, s', r);
      assert SlotOf(L, s', r) == Gone;
    }
  }

  // ----- writing -----

  /** An append leaves every file that shares no cluster with it alone, and goes on sharing none. */
  lemma OtherFileKept(L: Layout, d: Disk, size: nat, ch: seq<nat>, data: seq<byte>, d': Disk, ch': seq<nat>,
                      first2: nat, size2: nat, ch2: seq<nat>)
    requires LayoutOk(L, |d|) && Extended(L, d, size, ch, data, d', ch')
    requires FileOk(L, d, first2, size2, ch2) && Disjoint(ch2, ch)
    ensures Disjoint(ch2, ch') && Disjoint(ch', ch2)
    ensures FileOk(L, d', first2, size2, ch2)
    ensures FileBytes(d', Sectors(L, ch2), size2) == FileBytes(d, Sectors(L, ch2), size2)
  {
    hide Sectors, FileBytes, FreeList, TableOf, IsChain, Grown, SectorOf;
    if first2 != 0 {
      GrownApart(Table(L, d), ch, Table(L, d'), ch', ch2);
      GrownFacts(Table(L, d), ch, Table(L, d'), ch');
    }
    SectorsOnDevice(L, |d|, ch2);
    ApartSectors(L, ch2, ch');
    FileBytesFrame(d, d', Sectors(L, ch2), size2);
  }

  lemma ApartSectors(L: Layout, a: seq<nat>, b: seq<nat>)
    requires L.spc >= 1 && InVolume(L, a) && InVolume(L, b) && Disjoint(a, b)
    ensures forall s :: s in Sectors(L, a) ==> s !in Sectors(L, b)
  {
    SectorsDisjoint(L, a, b);
  }

  /** A chain that shares nothing with the one that grew: free clusters are in no chain. */
  lemma GrownApart(t: FatTable, ch: seq<nat>, t': FatTable, ch': seq<nat>, ch2: seq<nat>)
    requires Grown(t, ch, t', ch') && IsChain(t, ch2) && Disjoint(ch2, ch)
    ensures Disjoint(ch2, ch') && Disjoint(ch', ch2)
    ensures IsChain(t', ch2)
  {
    FreeFromExact(t, 2);
    forall x | x in ch2 ensures x !in ch' {
      var i :| 0 <= i < |ch2| && ch2[i] == x;
      assert i + 1 < |ch2| ==> t[ch2[i]] == ch2[i + 1];
      assert t[x] != 0;
    }
    ChainFrame(t, t', ch2);
  }

  /** An append does not touch the directory. */
  lemma DirKept(L: Layout, d: Disk, size: nat, ch: seq<nat>, data: seq<byte>, d': Disk, ch': seq<nat>)
    requires LayoutOk(L, |d|) && Extended(L, d, size, ch, data, d', ch')
    ensures |d'| == |d| && DirOf(L, d') == DirOf(L, d)
  {
    hide Sectors, FileBytes, FreeList, TableOf, Grown, Holds;
    SectorsOnDevice(L, |d|, ch');
    forall k | 0 <= k < DIR_SLOTS ensures SlotAt(L, d', k) == SlotAt(L, d, k) {
      assert L.rootStart <= L.rootStart + k / SLOTS_PER_SECTOR < L.rootStart + ROOT_SECTORS;
    }
  }

  lemma WriteOther(L: Layout, s: State, k: nat, data: seq<byte>, s': State, out: Out, j: nat)
    requires Inv(L, s) && Allowed(L, s, Write(k, data)) && Step(L, s, Write(k, data), s', out)
    requires j in s.chain && j != k
    ensures s'.chain[j] == s.chain[j]
    ensures |s'.d| == |s.d| && DirOf(L, s'.d) == DirOf(L, s.d)
    ensures j < DIR_SLOTS
      && FileOk(L, s'.d, FirstIn(DirOf(L, s.d), s'.open, j), SizeIn(DirOf(L, s.d), s'.open, j), s.chain[j])
    ensures Disjoint(s.chain[j], s'.chain[k]) && Disjoint(s'.chain[k], s.chain[j])
    ensures SlotOf(L, s', j) == SlotOf(L, s, j)
  {
    hide DirOf, FileOk, FileBytes, Sectors, NameOf, TableOf, DirInv, Extended, HasRoom, ClustersAfter, InVolume;
    var dir, h := DirOf(L, s.d), s.open[k];
    DirKept(L, s.d, h.fileSize, s.chain[k], data, s'.d, s'.chain[k]);
    OtherFileKept(L, s.d, h.fileSize, s.chain[k], data, s'.d, s'.chain[k],
                  FirstIn(dir, s.open, j), SizeIn(dir, s.open, j), s.chain[j]);
  }

  /**
   A handle whose position stays inside the file, and a chain for its slot, keep the directory's part of the
   invariant.
   */
  lemma WriteDirInv(dir: seq<Dirent>, open: map<nat, Handle>, chain: map<nat, seq<nat>>, k: nat, h: Handle,
                    ch: seq<nat>)
    requires DirInv(dir, open, chain) && k in open && k in chain
    requires h.filename == open[k].filename && h.position - open[k].position == h.fileSize - open[k].fileSize
    ensures DirInv(dir, open[k := h], chain[k := ch])
    ensures k < DIR_SLOTS == |dir| && Live(dir[k])
  {
    hide NameOf, Name83, FirstMatch;
    assert HandleOk(dir, open[k], k);
  }

  lemma WriteSelf(L: Layout, s: State, k: nat, data: seq<byte>, s': State, out: Out)
    requires Inv(L, s) && Allowed(L, s, Write(k, data)) && Step(L, s, Write(k, data), s', out)
    ensures |s'.d| == |s.d| && k < DIR_SLOTS && DirOf(L, s'.d) == DirOf(L, s.d)
    ensures FileOk(L, s'.d, FirstIn(DirOf(L, s.d), s'.open, k), SizeIn(DirOf(L, s.d), s'.open, k), s'.chain[k])
    ensures DirInv(DirOf(L, s.d), s'.open, s'.chain)
    ensures SlotOf(L, s, k).File?
    ensures SlotOf(L, s', k) == File(SlotOf(L, s, k).name, SlotOf(L, s, k).bytes + data)
  {
    hide DirOf, FileBytes, Sectors, NameOf, TableOf, Grown, SameOutside, HasRoom, ClustersAfter, FirstMatch, Name83;
    hide ChainsApart, FilesOk, FreeList, Holds, DirInv;
    var dir, h := DirOf(L, s.d), s.open[k];
    WriteDirInv(dir, s.open, s.chain, k, s'.open[k], s'.chain[k]);
    DirKept(L, s.d, h.fileSize, s.chain[k], data, s'.d, s'.chain[k]);
    GrownFacts(Table(L, s.d), s.chain[k], Table(L, s'.d), s'.chain[k]);
  }

  lemma GrownFacts(t: FatTable, ch: seq<nat>, t': FatTable, ch': seq<nat>)
    requires Grown(t, ch, t', ch')
    ensures IsChain(t', ch')
  {
  }

  lemma WriteRefines(L: Layout, s: State, k: nat, data: seq<byte>, s': State, out: Out)
    requires Inv(L, s) && Allowed(L, s, Write(k, data)) && Step(L, s, Write(k, data), s', out)
    ensures Inv(L, s') && Do(Abs(L, s), Write(k, data)) == (Abs(L, s'), out)
  {
    hide DirOf, FileOk, FileBytes, Sectors, NameOf, TableOf, DirInv, Extended, HasRoom, ClustersAfter, InVolume,
      SlotOf, PosOf;
    WriteSelf(L, s, k, data, s', out);
    forall j | j in s.chain && j != k
      ensures s'.chain[j] == s.chain[j] && j < DIR_SLOTS
      ensures FileOk(L, s'.d, FirstIn(DirOf(L, s.d), s'.open, j), SizeIn(DirOf(L, s.d), s'.open, j), s.chain[j])
      ensures Disjoint(s.chain[j], s'.chain[k]) && Disjoint(s'.chain[k], s.chain[j])
    {
      WriteOther(L, s, k, data, s', out, j);
    }
    forall j | 0 <= j < DIR_SLOTS && j != k ensures SlotOf(L, s', j) == SlotOf(L, s, j) {
      if j in s.chain {
        WriteOther(L, s, k, data, s', out, j);
      } else {
        EmptySlotKept(L, s, s', j);
      }
    }
    PosOfPut(s.open, k, s'.open[k]);
    assert SlotsOf(L, s') == SlotsOf(L, s)[k := SlotOf(L, s', k)];
  }

  lemma EmptySlotKept(L: Layout, s: State, s': State, j: nat)
    requires Inv(L, s) && |s'.d| == |s.d| && DirOf(L, s'.d) == DirOf(L, s.d)
    requires j < DIR_SLOTS && j !in s.chain && j !in s'.chain
    ensures SlotOf(L, s', j) == SlotOf(L, s, j)
  {
    hide DirOf, FileBytes;
  }

  // ----- runs -----

  /** Every allowed call keeps the invariant and does what it does to the simple file system. */
  lemma StepRefines(L: Layout, s: State, op: Op, s': State, out: Out)
    requires Inv(L, s) && Allowed(L, s, op) && Step(L, s, op, s', out)
    ensures Inv(L, s') && Do(Abs(L, s), op) == (Abs(L, s'), out)
  {
    hide Inv, Abs, Do, Step, Allowed;
    match op {
      case Create(name) => CreateRefines(L, s, name, s', out);
      case Open(name) => OpenRefines(L, s, name, s', out);
      case Write(k, data) => WriteRefines(L, s, k, data, s', out);
      case Read(k, size) => ReadRefines(L, s, k, size, s', out);
      case Update(k) => UpdateRefines(L, s, k, s', out);
      case Close(k) => CloseRefines(L, s, k, s', out);
      case Delete(name) => DeleteRefines(L, s, name, s', out);
    }
  }

  /** A run of allowed calls: `ss` are the states, one more than calls, `outs` what the calls return. */
  ghost predicate Run(L: Layout, ss: seq<State>, ops: seq<Op>, outs: seq<Out>) {
    && |ss| == |ops| + 1 && |outs| == |ops|
    && forall i, j :: 0 <= i < |ops| && j == i + 1 ==> Call(L, ss[i], ops[i], ss[j], outs[i])
  }

  ghost predicate Call(L: Layout, s: State, op: Op, s': State, out: Out) {
    LayoutOk(L, |s.d|) && Allowed(L, s, op) && Step(L, s, op, s', out)
  }

  /** The same calls on the simple file system. */
  function DoAll(a: Files, ops: seq<Op>): (Files, seq<Out>) {
    if ops == [] then (a, [])
    else
      var (b, outs) := DoAll(a, ops[..|ops| - 1]);
      var (c, out) := Do(b, ops[|ops| - 1]);
      (c, outs + [out])
  }

  /**
   Every run keeps the invariant and returns, call by call, what the simple file
   system returns: files keep exactly the bytes appended to them, whatever happens
   to other files, until they are deleted.
   */
  lemma {:induction false} RunRefines(L: Layout, ss: seq<State>, ops: seq<Op>, outs: seq<Out>)
    requires Run(L, ss, ops, outs) && Inv(L, ss[0])
    ensures forall i :: 0 <= i < |ss| ==> Inv(L, ss[i])
    ensures DoAll(Abs(L, ss[0]), ops) == (Abs(L, ss[|ops|]), outs)
    decreases |ops|
  {
    hide Inv, Abs, Do, Step, Allowed;
    if ops != [] {
      var n := |ops| - 1;
      assert Run(L, ss[..n + 1], ops[..n], outs[..n]);
      RunRefines(L, ss[..n + 1], ops[..n], outs[..n]);
      assert Call(L, ss[n], ops[n], ss[n + 1], outs[n]);
      StepRefines(L, ss[n], ops[n], ss[n + 1], outs[n]);
      assert outs == outs[..n] + [outs[n]];
      forall i | 0 <= i < |ss| ensures Inv(L, ss[i]) {
        assert i <= n ==> ss[..n + 1][i] == ss[i];
      }
    }
  }
}
