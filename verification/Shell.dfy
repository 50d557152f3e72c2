/** The shell's `echo` and `cat` over a file system session. */
module Shell {
  import opened Arithmetic
  import opened Bytes
  import opened Fat12
  import opened Volume
  import opened Directory
  import opened FileSystem
  import opened DirectoryOps
  import opened FsRuns
  import opened FsSession
  import opened ShellLine
  import opened ShellSpec

  /** Room for `n` bytes, whichever file of that name gets them: a new one, or one that is there. */
  ghost predicate EchoRoom(L: Layout, s: State, name: seq<byte>, n: nat)
    requires LayoutOk(L, |s.d|)
  {
    && HasRoom(L, s.d, 0, [], n)
    && forall k :: k in s.chain && k < DIR_SLOTS && NameOf(DirOf(L, s.d)[k]) == Name83(name)
         ==> HasRoom(L, s.d, SizeOf(DirOf(L, s.d)[k]), s.chain[k], n)
  }

  /** What `echo` asks of its caller: a valid name, no open file of that name, and room. */
  ghost predicate EchoAllowed(L: Layout, s: State, name: seq<byte>, n: nat)
    requires LayoutOk(L, |s.d|)
  {
    && Allowed(L, s, Op.Create(name)) && Name83(Remembered(name)) == Name83(name)
    && EchoRoom(L, s, name, n)
  }

  lemma RoomSame(L: Layout, d: Disk, d': Disk, size: nat, ch: seq<nat>, n: nat)
    requires L.fatStart < |d| && |d'| == |d| && d'[L.fatStart] == d[L.fatStart] && L.spc >= 1
    requires HasRoom(L, d, size, ch, n)
    ensures HasRoom(L, d', size, ch, n)
  {
  }

  /** Room for all the text is room for its first part, and what is left is room for the rest. */
  lemma RoomSplit(L: Layout, d: Disk, size: nat, ch: seq<nat>, n: nat, m: nat)
    requires L.fatStart < |d| && L.spc >= 1 && HasRoom(L, d, size, ch, n + m)
    ensures HasRoom(L, d, size, ch, n)
  {
    hide FreeList, TableOf;
    DivMono(size + n + ClusterBytes(L) - 1, size + n + m + ClusterBytes(L) - 1, ClusterBytes(L));
  }

  lemma RoomLeft(L: Layout, d: Disk, size: nat, ch: seq<nat>, data: seq<byte>, d': Disk, ch': seq<nat>, m: nat)
    requires LayoutOk(L, |d|) && data != [] && m > 0 && HasRoom(L, d, size, ch, |data| + m)
    requires Appended(L, d, size, ch, data, d', ch')
    ensures HasRoom(L, d', size + |data|, ch', m)
  {
    hide FreeList, TableOf, Sectors, FileBytes, InVolume, IsChain, ClustersAfter;
    ClustersFor(L, size, |data| + m);
    ClustersFor(L, size + |data|, m);
    var free, free' := FreeList(Table(L, d)), FreeList(Table(L, d'));
    var k := |ch'| - |ch|;
    assert free' == free[k..];
    assert forall i :: 0 <= i < |free'| ==> free'[i] == free[k + i];
  }

  /** Appending at least one byte takes exactly the clusters that the new size fills or begins. */
  lemma ClustersFor(L: Layout, size: nat, n: nat)
    requires L.spc >= 1 && n > 0
    ensures ClustersAfter(L, size, n) == (size + n + ClusterBytes(L) - 1) / ClusterBytes(L)
  {
    var b := ClusterBytes(L);
    DivMono(size + b, size + n + b - 1, b);
    DivPlusOne(size, b);
  }

  // ----- the steps of echo -----

  /** Creating the entry keeps the room. */
  lemma CreateKeepsRoom(L: Layout, s: State, name: seq<byte>, s': State, out: Out, n: nat)
    requires Inv(L, s) && Call(L, s, Op.Create(name), s', out) && EchoRoom(L, s, name, n)
    ensures LayoutOk(L, |s'.d|) && EchoRoom(L, s', name, n) && s'.open == s.open
    ensures forall k :: k in s'.open ==> k < DIR_SLOTS && NameOf(DirOf(L, s'.d)[k]) != Name83(name)
  {
    hide DirOf, PutSlot, NewEntry, Name83, FileOk, FileBytes, NameOf, TableOf, SizeOf, FirstOf, ScanFree, HasRoom,
      DirOk, FilesOk, ChainsApart;
    var r := ScanFree(DirOf(L, s.d), 0);
    if NameLengthOk(name) && r < DIR_SLOTS {
      var e := NewEntry(Name83(name));
      NewEntryFields(Name83(name));
      PutSlotOne(L, s.d, r, e);
      NameIsLive(name);
      CreateDirInv(DirOf(L, s.d), s.open, s.chain, e);
      RoomSame(L, s.d, s'.d, 0, [], n);
      forall k | k in s'.chain && k < DIR_SLOTS && NameOf(DirOf(L, s'.d)[k]) == Name83(name)
        ensures HasRoom(L, s'.d, SizeOf(DirOf(L, s'.d)[k]), s'.chain[k], n)
      {
        if k != r {
          RoomSame(L, s.d, s'.d, SizeOf(DirOf(L, s.d)[k]), s.chain[k], n);
        }
      }
    }
  }

  /** No open handle has the name, so the slot found for it is not open. */
  lemma MayOpen(L: Layout, s: State, name: seq<byte>)
    requires Inv(L, s) && Name83(Remembered(name)) == Name83(name)
    requires forall k :: k in s.open ==> k < DIR_SLOTS && NameOf(DirOf(L, s.d)[k]) != Name83(name)
    ensures Allowed(L, s, Op.Open(name))
  {
    hide DirOf, Name83, FileOk, NameOf, TableOf, ScanFind, FilesOk, ChainsApart, FirstMatch;
    var dir := DirOf(L, s.d);
    ScansAgree(dir, Name83(name));
    FirstMatchFacts(dir, Name83(name), ScanFind(dir, Name83(name), 0));
  }

  /** While echo writes: the slot holds `bytes` so far, and there is room for what is still to come. */
  ghost predicate Echoing(L: Layout, s: State, base: Files, q: nat, name: seq<byte>, bytes: seq<byte>,
                          rest: seq<byte>) {
    && Inv(L, s) && q in s.open && q in s.chain && s.open[q].filename == Remembered(name)
    && q < |base.slots| && base.slots[q].File?
    && SlotsOf(L, s) == base.slots[q := File(base.slots[q].name, bytes)]
    && PosOf(s.open) - {q} == base.pos
    && (rest != [] ==> HasRoom(L, s.d, s.open[q].fileSize, s.chain[q], |rest|))
  }

  lemma Opened(L: Layout, s: State, name: seq<byte>, s': State, out: Out, text: seq<byte>)
    requires Inv(L, s) && Call(L, s, Op.Open(name), s', out) && EchoRoom(L, s, name, |text|) && out == Done(FsOk)
    ensures var a, q := Abs(L, s), ScanFind(DirOf(L, s.d), Name83(name), 0);
            && q == Find(a.slots, Name83(name), 0) < |a.slots| && a.slots[q].File? && a.slots[q].name == Name83(name)
            && Echoing(L, s', a, q, name, a.slots[q].bytes, text)
  {
    hide DirOf, Name83, FileOk, FileBytes, NameOf, TableOf, FirstOf, SizeOf, ScanFind, SlotsOf, Find, FirstMatch,
      HasRoom, FilesOk, ChainsApart, DirInv, PosOf;
    var dir, q := DirOf(L, s.d), ScanFind(DirOf(L, s.d), Name83(name), 0);
    StepRefines(L, s, Op.Open(name), s', out);
    DirInvFacts(dir, s.open, s.chain);
    ScansAgree(dir, Name83(name));
    FirstMatchFacts(dir, Name83(name), q);
    FindIsScan(L, s, Name83(name), 0);
    FindIs(SlotsOf(L, s), Name83(name), 0);
    FilesInSlot(L, s, q);
    var slots := SlotsOf(L, s);
    assert slots[q := File(slots[q].name, slots[q].bytes)] == slots;
    assert q !in s.open;
    PosOfOpened(s.open, q, s'.open[q]);
  }

  lemma PosAt(open: map<nat, Handle>, q: nat)
    requires q in open
    ensures q in PosOf(open) && PosOf(open)[q] == open[q].position
  {
  }

  lemma PosOfOpened(open: map<nat, Handle>, q: nat, h: Handle)
    requires q !in open
    ensures PosOf(open[q := h]) - {q} == PosOf(open)
  {
  }

  lemma FilesInSlot(L: Layout, s: State, q: nat)
    requires Inv(L, s) && q < DIR_SLOTS && SlotOf(L, s, q).File?
    ensures q in s.chain && NameOf(DirOf(L, s.d)[q]) == SlotOf(L, s, q).name
  {
    hide DirOf, FileOk, FileBytes, NameOf, TableOf, FilesOk, ChainsApart;
  }

  lemma MayWrite(L: Layout, s: State, base: Files, q: nat, name: seq<byte>, bytes: seq<byte>, data: seq<byte>,
                 rest: seq<byte>)
    requires Echoing(L, s, base, q, name, bytes, data + rest) && data != []
    ensures Allowed(L, s, Op.Write(q, data))
  {
    hide HasRoom, SlotsOf, PosOf, DirOf, DirInv, FilesOk, ChainsApart;
    assert data + rest != [];
    RoomSplit(L, s.d, s.open[q].fileSize, s.chain[q], |data|, |rest|);
  }

  lemma Written(L: Layout, s: State, base: Files, q: nat, name: seq<byte>, bytes: seq<byte>, data: seq<byte>,
                rest: seq<byte>, s': State, out: Out)
    requires Echoing(L, s, base, q, name, bytes, data + rest) && data != []
    requires Call(L, s, Op.Write(q, data), s', out)
    ensures out == Done(FsOk) && Echoing(L, s', base, q, name, bytes + data, rest)
  {
    hide HasRoom, SlotsOf, PosOf, DirOf, DirInv, FilesOk, ChainsApart, Appended, Inv;
    StepRefines(L, s, Op.Write(q, data), s', out);
    assert |SlotsOf(L, s)| == DIR_SLOTS;
    PosAt(s.open, q);
    var p := PosOf(s.open);
    assert PosOf(s'.open) == p[q := p[q] + |data|];
    assert p[q := p[q] + |data|] - {q} == p - {q};
    if rest != [] {
      RoomLeft(L, s.d, s.open[q].fileSize, s.chain[q], data, s'.d, s'.chain[q], |rest|);
    }
  }

  lemma Updated(L: Layout, s: State, base: Files, q: nat, name: seq<byte>, bytes: seq<byte>, s': State, out: Out)
    requires Echoing(L, s, base, q, name, bytes, []) && Call(L, s, Op.Update(q), s', out)
    ensures Echoing(L, s', base, q, name, bytes, [])
  {
    hide HasRoom, SlotsOf, PosOf, DirOf, DirInv, FilesOk, ChainsApart, Inv, Recorded;
    RecordedKeeps(L, s, q, s.open, s', out);
    HandleInChain(L, s', q);
  }

  lemma Closed(L: Layout, s: State, base: Files, q: nat, name: seq<byte>, bytes: seq<byte>, s': State, out: Out)
    requires Echoing(L, s, base, q, name, bytes, []) && Call(L, s, Op.Close(q), s', out)
    ensures Inv(L, s') && Abs(L, s') == base.(slots := base.slots[q := File(base.slots[q].name, bytes)])
  {
    hide HasRoom, SlotsOf, PosOf, DirOf, DirInv, FilesOk, ChainsApart, Inv, Recorded;
    StepRefines(L, s, Op.Close(q), s', out);
  }

  /** What is written before word `i` and what is still to come make up the joined words. */
  function RestFrom(words: seq<seq<byte>>, i: nat): seq<byte>
    requires i <= |words|
    decreases |words| - i
  {
    if i == |words| then []
    else if i == |words| - 1 then words[i]
    else words[i] + ([SPACE] + RestFrom(words, i + 1))
  }

  lemma {:induction false} RestIsJoin(words: seq<seq<byte>>, i: nat)
    requires i < |words|
    ensures Join(words) == (if i == 0 then [] else Join(words[..i]) + [SPACE]) + RestFrom(words, i)
    decreases |words| - i
  {
    if i == |words| - 1 {
      assert words[..i] == words[..|words| - 1];
      assert i == 0 ==> [] + words[0] == words[0];
    } else {
      RestIsJoin(words, i + 1);
      assert words[..i + 1][..i] == words[..i] && words[..i + 1][i] == words[i];
      var tail := RestFrom(words, i + 1);
      if i == 0 {
        assert Join(words[..1]) == words[0];
        assert words[0] + [SPACE] + tail == [] + (words[0] + ([SPACE] + tail));
      } else {
        var before := Join(words[..i]);
        assert (before + [SPACE] + words[i]) + [SPACE] + tail == (before + [SPACE]) + (words[i] + ([SPACE] + tail));
      }
    }
  }

  /** What the chunks read so far have shown, and what the rest will. */
  lemma CatStep(bytes: seq<byte>, p: nat, n: nat)
    requires p < |bytes| && n == Min(CHUNK, |bytes| - p)
    ensures CatText(bytes[p..]) == CString(bytes[p..p + n], 0) + CatText(bytes[p + n..])
  {
    hide CString;
    assert bytes[p..][..n] == bytes[p..p + n] && bytes[p..][n..] == bytes[p + n..];
  }

  lemma CatDone(bytes: seq<byte>, p: nat, output: seq<byte>)
    requires p == |bytes| && output + CatText(bytes[p..]) == CatText(bytes)
    ensures output == CatText(bytes)
  {
    assert bytes[p..] == [] && output + [] == output;
  }

  /** While cat reads: nothing has changed but the position in the one open slot. */
  ghost predicate Catting(L: Layout, s: State, base: Files, q: nat, p: nat) {
    && Inv(L, s) && q in s.open && q < |base.slots| && base.slots[q].File? && p <= |base.slots[q].bytes|
    && SlotsOf(L, s) == base.slots && PosOf(s.open) - {q} == base.pos && s.open[q].position == p
  }

  lemma CatOpened(L: Layout, s: State, name: seq<byte>, s': State, out: Out)
    requires Inv(L, s) && Call(L, s, Op.Open(name), s', out) && out == Done(FsOk)
    ensures var a, q := Abs(L, s), ScanFind(DirOf(L, s.d), Name83(name), 0);
            && q == Find(a.slots, Name83(name), 0) < DIR_SLOTS && a.slots[q].File?
            && Catting(L, s', a, q, 0)
  {
    hide DirOf, Name83, FileOk, FileBytes, NameOf, TableOf, FirstOf, SizeOf, ScanFind, SlotsOf, Find, FirstMatch,
      FilesOk, ChainsApart, DirInv, PosOf, Inv;
    var q := ScanFind(DirOf(L, s.d), Name83(name), 0);
    StepRefines(L, s, Op.Open(name), s', out);
    FindSlot(L, s, name);
    FindIs(SlotsOf(L, s), Name83(name), 0);
    PosOfOpened(s.open, q, s'.open[q]);
  }

  lemma FindSlot(L: Layout, s: State, name: seq<byte>)
    requires Inv(L, s)
    ensures Find(SlotsOf(L, s), Name83(name), 0) == ScanFind(DirOf(L, s.d), Name83(name), 0) <= DIR_SLOTS
    ensures |SlotsOf(L, s)| == DIR_SLOTS
  {
    hide DirOf, Name83, NameOf, TableOf, ScanFind, SlotsOf, Find, FirstMatch, FilesOk, ChainsApart;
    DirInvFacts(DirOf(L, s.d), s.open, s.chain);
    ScansAgree(DirOf(L, s.d), Name83(name));
    FindIsScan(L, s, Name83(name), 0);
    FindIs(SlotsOf(L, s), Name83(name), 0);
  }

  lemma CatRead(L: Layout, s: State, base: Files, q: nat, bytes: seq<byte>, p: nat, s': State, data: seq<byte>)
    requires p <= |bytes| && q < |base.slots| && base.slots[q].File? && base.slots[q].bytes == bytes
    requires Catting(L, s, base, q, p) && Call(L, s, Op.Read(q, CHUNK), s', Got(data))
    ensures |data| == Min(CHUNK, |bytes| - p) && data == bytes[p..p + |data|]
    ensures Catting(L, s', base, q, p + |data|)
  {
    hide DirOf, FileOk, FileBytes, NameOf, TableOf, SlotsOf, FilesOk, ChainsApart, DirInv, Inv, Sectors, PosOf;
    var pos := PosOf(s.open);
    PosAt(s.open, q);
    StepRefines(L, s, Op.Read(q, CHUNK), s', Got(data));
    assert s'.open[q].position == p + |data|;
    assert pos[q := p + |data|] - {q} == pos - {q};
  }

  lemma CatClosed(L: Layout, s: State, base: Files, q: nat, p: nat, s': State, out: Out)
    requires Catting(L, s, base, q, p) && Call(L, s, Op.Close(q), s', out)
    ensures Inv(L, s') && Abs(L, s') == base
  {
    hide SlotsOf, PosOf, DirOf, DirInv, FilesOk, ChainsApart, Inv, Recorded;
    StepRefines(L, s, Op.Close(q), s', out);
  }

  class Commands {
    const session: Session

    constructor (session: Session)
      ensures this.session == session
    {
      this.session := session;
    }

    /** Reads an open file from its start in chunks of at most 127 bytes, and prints each chunk. */
    method PrintAll(file: SmartFile, ghost a: Files, ghost q: nat, ghost bytes: seq<byte>) returns (output: seq<byte>)
      requires session.Valid() && q in session.handles && session.handles[q] == file
      requires q < |a.slots| && a.slots[q].File? && a.slots[q].bytes == bytes
      requires Catting(session.fs.Lay(), session.View(), a, q, 0)
      modifies session, file, session.fs.fatCache
      ensures session.Valid() && session.fs.Lay() == old(session.fs.Lay())
      ensures session.handles == old(session.handles)
      ensures Catting(session.fs.Lay(), session.View(), a, q, |bytes|)
      ensures output == CatText(bytes)
    {
      hide Inv, Abs, Do, DirOf, ScanFind, Name83, Allowed, Step, SlotsOf, PosOf, Catting, CatText, CString, Find,
        LayoutOk, Values;
      ghost var L, p := session.fs.Lay(), 0;
      output := [];
      assert bytes[0..] == bytes;
      while true
        invariant session.Valid() && session.fs.Lay() == L && session.handles == old(session.handles)
        invariant Catting(L, session.View(), a, q, p) && p <= |bytes|
        invariant output + CatText(bytes[p..]) == CatText(bytes)
        decreases |bytes| - p
      {
        ghost var before := session.View();
        var data := session.Read(file, q, CHUNK);
        CatRead(L, before, a, q, bytes, p, session.View(), data);
        if |data| == 0 {
          break;
        }
        CatStep(bytes, p, |data|);
        output := output + CString(data, 0);
        p := p + |data|;
      }
      CatDone(bytes, p, output);
    }

    /** `cat file`: prints the file in chunks of at most 127 bytes. */
    method CmdCat(argv: seq<seq<byte>>) returns (r: int, output: seq<byte>)
      requires session.Valid()
      requires |argv| >= 2 ==> Allowed(session.fs.Lay(), session.View(), Op.Open(argv[1]))
      modifies session, session.fs.dev, session.fs.fatCache
      ensures session.Valid() && session.fs.Lay() == old(session.fs.Lay())
      ensures Abs(session.fs.Lay(), session.View()) == old(Abs(session.fs.Lay(), session.View()))
      ensures if |argv| < 2 then r == -1 && output == []
              else (output, r) == Cat(old(Abs(session.fs.Lay(), session.View())), argv[1])
    {
      hide Inv, Abs, Do, DirOf, ScanFind, Name83, Allowed, Step, SlotsOf, PosOf, Catting, CatText, CString, Find,
        LayoutOk, Values;
      output := [];
      if |argv| < 2 {
        return -1, [];
      }
      ghost var L, s := session.fs.Lay(), session.View();
      var name := argv[1];
      ghost var a, q := Abs(L, s), ScanFind(DirOf(L, s.d), Name83(name), 0);
      FindSlot(L, s, name);
      var file := new SmartFile();
      var status := session.Open(name, file);
      StepRefines(L, s, Op.Open(name), session.View(), Done(status));
      CatOpenedOrNot(L, s, name, session.View(), status);
      if status != FsOk {
        return -1, [];
      }
      ghost var bytes := a.slots[q].bytes;
      output := PrintAll(file, a, q, bytes);
      ghost var before := session.View();
      status := session.Close(file, q);
      CatClosed(L, before, a, q, |bytes|, session.View(), Done(status));
      r := 0;
    }

    lemma CatOpenedOrNot(L: Layout, s: State, name: seq<byte>, s': State, status: FsStatus)
      requires Inv(L, s) && Call(L, s, Op.Open(name), s', Done(status))
      ensures status != FsOk ==> Find(Abs(L, s).slots, Name83(name), 0) == |Abs(L, s).slots| && s' == s
      ensures status == FsOk ==> ScanFind(DirOf(L, s.d), Name83(name), 0) < DIR_SLOTS
      ensures var q := ScanFind(DirOf(L, s.d), Name83(name), 0);
              status == FsOk ==>
                && q == Find(Abs(L, s).slots, Name83(name), 0) < |Abs(L, s).slots| && Abs(L, s).slots[q].File?
                && Catting(L, s', Abs(L, s), q, 0)
    {
      hide DirOf, Name83, ScanFind, SlotsOf, Find, Inv, PosOf;
      FindSlot(L, s, name);
      if status == FsOk {
        CatOpened(L, s, name, s', Done(status));
      }
    }

    /** Writes the words between the command and the `>`, with a space after each but the last. */
    method WriteWords(argv: seq<seq<byte>>, file: SmartFile, ghost base: Files, ghost q: nat, ghost name: seq<byte>,
                      ghost held: seq<byte>)
      requires session.Valid() && |argv| >= 4 && forall i :: 1 <= i < |argv| - 2 ==> argv[i] != []
      requires q in session.handles && session.handles[q] == file
      requires Echoing(session.fs.Lay(), session.View(), base, q, name, held, Join(argv[1..|argv| - 2]))
      modifies session, file, session.fs.dev, session.fs.fatCache
      ensures session.Valid() && session.fs.Lay() == old(session.fs.Lay()) && session.handles == old(session.handles)
      ensures Echoing(session.fs.Lay(), session.View(), base, q, name, held + Join(argv[1..|argv| - 2]), [])
    {
      hide Inv, Abs, Do, DirOf, ScanFind, Name83, Allowed, Step, SlotsOf, PosOf, Echoing, Find, FindFree, Join,
        RestFrom, Values;
      var argc := |argv|;
      ghost var L, words := session.fs.Lay(), argv[1..argc - 2];
      ghost var text, done := Join(words), held;
      RestIsJoin(words, 0);
      assert [] + RestFrom(words, 0) == RestFrom(words, 0);
      var i := 1;
      while i < argc - 2
        invariant 1 <= i <= argc - 2
        invariant session.Valid() && session.fs.Lay() == L && session.handles == old(session.handles)
        invariant Echoing(L, session.View(), base, q, name, done, RestFrom(words, i - 1))
        invariant done + RestFrom(words, i - 1) == held + text
        decreases argc - i
      {
        NextWord(words, i - 1);
        ghost var rest := RestFrom(words, i - 1)[|argv[i]|..];
        ghost var s := session.View();
        MayWrite(L, s, base, q, name, done, argv[i], rest);
        var status := session.Write(file, q, argv[i]);
        Written(L, s, base, q, name, done, argv[i], rest, session.View(), Done(status));
        done := done + argv[i];
        if i < argc - 3 {
          s := session.View();
          MayWrite(L, s, base, q, name, done, [SPACE], RestFrom(words, i));
          status := session.Write(file, q, [SPACE]);
          Written(L, s, base, q, name, done, [SPACE], RestFrom(words, i), session.View(), Done(status));
          done := done + [SPACE];
        }
        i := i + 1;
      }
      AllWritten(words, done, held + text);
    }

    /** `echo words > file`: creates the file, opens it and writes word after word. */
    method CmdEcho(argv: seq<seq<byte>>) returns (r: int)
      requires session.Valid()
      requires EchoUsage(argv) ==>
        && (forall i :: 1 <= i < |argv| - 2 ==> argv[i] != [])
        && EchoAllowed(session.fs.Lay(), session.View(), argv[|argv| - 1], |Join(argv[1..|argv| - 2])|)
      modifies session, session.fs.dev, session.fs.fatCache
      ensures session.Valid() && session.fs.Lay() == old(session.fs.Lay())
      ensures var a := old(Abs(session.fs.Lay(), session.View()));
              (Abs(session.fs.Lay(), session.View()), r)
              == if EchoUsage(argv) then Echo(a, argv[|argv| - 1], argv[1..|argv| - 2]) else (a, -1)
      ensures |argv| < 4 || argv[|argv| - 2] == [] || argv[|argv| - 2][0] != 62 ==>
        r == -1 && Abs(session.fs.Lay(), session.View()) == old(Abs(session.fs.Lay(), session.View()))
    {
      hide Inv, Abs, Do, DirOf, ScanFind, Name83, Allowed, Step, SlotsOf, PosOf, Echoing, EchoRoom, Find, FindFree,
        Join, RestFrom;
      var argc := |argv|;
      if argc < 4 || |argv[argc - 2]| == 0 || argv[argc - 2][0] != 62 {
        return -1;
      }
      ghost var L, s0 := session.fs.Lay(), session.View();
      var filename := argv[argc - 1];
      ghost var words, name := argv[1..argc - 2], filename;
      ghost var text := Join(words);
      var status := session.Create(filename);
      ghost var s1 := session.View();
      EchoCreated(L, s0, name, s1, status, words);
      if status != FsOk && status != FsFull {
        return -1;
      }
      ghost var base, q := Abs(L, s1), ScanFind(DirOf(L, s1.d), Name83(name), 0);
      MayOpen(L, s1, name);
      var file := new SmartFile();
      status := session.Open(filename, file);
      if status != FsOk {
        NotOpened(L, s1, name, session.View(), status);
        return -1;
      }
      Opened(L, s1, name, session.View(), Done(status), text);
      ghost var held := base.slots[q].bytes;
      WriteWords(argv, file, base, q, name, held);
      ghost var done := held + text;
      ghost var s := session.View();
      SameStoredName(L, s, base, q, name, done);
      status := session.Update(filename, file, q);
      Updated(L, s, base, q, name, done, session.View(), Done(status));
      s := session.View();
      status := session.Close(file, q);
      Closed(L, s, base, q, name, done, session.View(), Done(status));
      r := 0;
    }
  }

  /** What is still to come begins with the next word, and a space if there are more. */
  lemma NextWord(words: seq<seq<byte>>, i: nat)
    requires i < |words|
    ensures |words[i]| <= |RestFrom(words, i)|
    ensures RestFrom(words, i) == words[i] + RestFrom(words, i)[|words[i]|..]
    ensures RestFrom(words, i)[|words[i]|..]
      == if i == |words| - 1 then RestFrom(words, i + 1) else [SPACE] + RestFrom(words, i + 1)
  {
  }

  lemma AllWritten(words: seq<seq<byte>>, done: seq<byte>, all: seq<byte>)
    requires done + RestFrom(words, |words|) == all
    ensures RestFrom(words, |words|) == [] && done == all
  {
  }

  /** After create: the entry is there if there was a free slot, and its text has room. */
  lemma EchoCreated(L: Layout, s: State, name: seq<byte>, s': State, status: FsStatus, words: seq<seq<byte>>)
    requires Inv(L, s) && Call(L, s, Op.Create(name), s', Done(status)) && EchoAllowed(L, s, name, |Join(words)|)
    ensures Inv(L, s') && LayoutOk(L, |s'.d|) && EchoRoom(L, s', name, |Join(words)|)
    ensures forall k :: k in s'.open ==> k < DIR_SLOTS && NameOf(DirOf(L, s'.d)[k]) != Name83(name)
    ensures status != FsOk && status != FsFull ==> Echo(Abs(L, s), name, words) == (Abs(L, s'), -1)
    ensures status == FsOk || status == FsFull ==>
      var a, b := Abs(L, s), Abs(L, s');
      && b.pos == a.pos
      && Echo(a, name, words) ==
           var q := Find(b.slots, Name83(name), 0);
           if q < |b.slots| && b.slots[q].File?
           then (b.(slots := b.slots[q := File(b.slots[q].name, b.slots[q].bytes + Join(words))]), 0) else (b, -1)
  {
    hide DirOf, Name83, NameOf, SlotsOf, PosOf, Find, FindFree, Join, EchoRoom, Inv, Step;
    StepRefines(L, s, Op.Create(name), s', Done(status));
    CreateKeepsRoom(L, s, name, s', Done(status), |Join(words)|);
  }

  lemma NotOpened(L: Layout, s: State, name: seq<byte>, s': State, status: FsStatus)
    requires Inv(L, s) && Call(L, s, Op.Open(name), s', Done(status)) && status != FsOk
    ensures s' == s && Find(Abs(L, s).slots, Name83(name), 0) >= |Abs(L, s).slots|
  {
    hide DirOf, Name83, ScanFind, SlotsOf, Find, Inv, PosOf;
    FindSlot(L, s, name);
  }

  /** The handle's remembered name is stored as the file's name is. */
  lemma SameStoredName(L: Layout, s: State, base: Files, q: nat, name: seq<byte>, bytes: seq<byte>)
    requires Echoing(L, s, base, q, name, bytes, []) && Name83(Remembered(name)) == Name83(name)
    ensures Name83(s.open[q].filename) == Name83(name)
  {
  }
}
