/**
 A client's session: each call goes to the driver's method, and the contracts make
 it a call of the run model.
 */
module FsSession {
  import opened Bytes
  import opened Fat12
  import opened Volume
  import opened Directory
  import opened FileSystem
  import opened DirectoryOps
  import opened FsRuns

  /** The handles as values. */
  ghost function Values(handles: map<nat, SmartFile>): map<nat, Handle>
    reads handles.Values
  {
    map k | k in handles :: handles[k].Value()
  }

  /** A map that agrees with every handle is the map of their values. */
  lemma ValuesIs(handles: map<nat, SmartFile>, m: map<nat, Handle>)
    requires m.Keys == handles.Keys && forall j :: j in handles ==> handles[j].Value() == m[j]
    ensures Values(handles) == m
  {
  }

  lemma ValuesAt(handles: map<nat, SmartFile>)
    ensures Values(handles).Keys == handles.Keys
    ensures forall j :: j in handles ==> handles[j].Value() == Values(handles)[j]
  {
  }

  /** What the driver's `Read` promises is the read of the run model. */
  lemma ReadIsStep(L: Layout, s: State, k: nat, size: nat, t: State, n: nat, data: seq<byte>)
    requires LayoutOk(L, |s.d|) && Inv(L, s) && k in s.open && k in s.chain
    requires n == Available(s.open[k].position, s.open[k].fileSize, size)
    requires t == s.(open := s.open[k := s.open[k].(position := s.open[k].position + n)])
    requires data == Slice(FileBytes(s.d, Sectors(L, s.chain[k]), s.open[k].fileSize), s.open[k].position, n)
    ensures Inv(L, t) && Call(L, s, Op.Read(k, size), t, Got(data))
  {
    hide Inv, Abs, Do, DirOf, Name83, FileBytes, Sectors;
    StepRefines(L, s, Op.Read(k, size), t, Got(data));
  }

  class Session {
    const fs: Fs

    /** Which object is the open handle of which directory slot, and the cluster chain of every file. */
    ghost var handles: map<nat, SmartFile>
    ghost var chain: map<nat, seq<nat>>

    /** A session over a mounted volume with no open file. */
    constructor (fs: Fs, ghost chain: map<nat, seq<nat>>)
      requires fs.Mounted() && Inv(fs.Lay(), State(fs.Disk(), map[], chain))
      ensures this.fs == fs && handles == map[] && this.chain == chain && Valid()
    {
      this.fs := fs;
      this.handles := map[];
      this.chain := chain;
      new;
      assert View() == State(fs.Disk(), map[], chain);
    }

    ghost function View(): State
      requires fs.dev != null
      reads this, fs, fs.dev, handles.Values
    {
      State(fs.Disk(), Values(handles), chain)
    }

    ghost predicate Apart()
      reads this
    {
      forall j, k :: j in handles && k in handles && j != k ==> handles[j] != handles[k]
    }

    ghost predicate Valid()
      reads this, fs, fs.dev, handles.Values
    {
      fs.Mounted() && Apart() && Inv(fs.Lay(), View())
    }

    method Create(name: seq<byte>) returns (status: FsStatus)
      requires Valid() && Allowed(fs.Lay(), View(), Op.Create(name))
      modifies this, fs.dev
      ensures Valid() && Call(fs.Lay(), old(View()), Op.Create(name), View(), Done(status))
    {
      hide Inv, Abs, Do, DirOf, PutSlot, ScanFind, ScanStop, ScanFree, Name83, NewEntry, MarkDeleted, SectorOf,
        FileBytes, Sectors, Appended, HasRoom, ClustersAfter, Table, WithInfo, FileOk, Values;
      ghost var L, s := fs.Lay(), View();
      ghost var r := ScanFree(DirOf(L, s.d), 0);
      status := DirectoryOps.Create(fs, name);
      if status == FsOk {
        chain := chain[r := []];
      }
      StepRefines(L, s, Op.Create(name), View(), Done(status));
    }

    method Delete(name: seq<byte>) returns (status: FsStatus)
      requires Valid() && Allowed(fs.Lay(), View(), Op.Delete(name))
      modifies this, fs.dev
      ensures Valid() && Call(fs.Lay(), old(View()), Op.Delete(name), View(), Done(status))
    {
      hide Inv, Abs, Do, DirOf, PutSlot, ScanFind, ScanStop, ScanFree, Name83, NewEntry, MarkDeleted, SectorOf,
        FileBytes, Sectors, Appended, HasRoom, ClustersAfter, Table, WithInfo, FileOk, Values;
      ghost var L, s := fs.Lay(), View();
      ghost var r := ScanStop(DirOf(L, s.d), Name83(name), 0);
      status := DirectoryOps.Delete(fs, name);
      if status == FsOk {
        chain := chain - {r};
      }
      StepRefines(L, s, Op.Delete(name), View(), Done(status));
    }

    method Open(name: seq<byte>, file: SmartFile) returns (status: FsStatus)
      requires Valid() && Allowed(fs.Lay(), View(), Op.Open(name))
      requires forall k :: k in handles ==> handles[k] != file
      modifies this, file
      ensures Valid() && Call(fs.Lay(), old(View()), Op.Open(name), View(), Done(status))
      ensures status == FsOk ==>
        handles == old(handles)[ScanFind(DirOf(fs.Lay(), fs.Disk()), Name83(name), 0) := file]
    {
      hide Inv, Abs, Do, DirOf, PutSlot, ScanFind, ScanStop, ScanFree, Name83, NewEntry, MarkDeleted, SectorOf,
        FileBytes, Sectors, Appended, HasRoom, ClustersAfter, Table, WithInfo, FileOk;
      ghost var L, s := fs.Lay(), View();
      ghost var r := ScanFind(DirOf(L, s.d), Name83(name), 0);
      status := DirectoryOps.Open(fs, name, file);
      if status == FsOk {
        handles := handles[r := file];
        assert View().open == s.open[r := file.Value()];
      } else {
        assert View().open == s.open;
      }
      StepRefines(L, s, Op.Open(name), View(), Done(status));
    }

    /** The handle of slot `k`. */
    method Write(file: SmartFile, ghost k: nat, data: seq<byte>) returns (status: FsStatus)
      requires Valid() && k in handles && handles[k] == file
      requires Allowed(fs.Lay(), View(), Op.Write(k, data))
      modifies this, file, fs.dev, fs.fatCache
      ensures Valid() && Call(fs.Lay(), old(View()), Op.Write(k, data), View(), Done(status))
      ensures handles == old(handles)
    {
      hide Inv, Abs, Do, DirOf, PutSlot, ScanFind, ScanStop, ScanFree, Name83, NewEntry, MarkDeleted, SectorOf,
        FileBytes, Sectors, Appended, HasRoom, ClustersAfter, Table, WithInfo, FileOk, Values;
      ghost var L, s := fs.Lay(), View();
      ValuesAt(handles);
      FilesOkAt(L, s, k);
      var written;
      ghost var ch';
      status, written, ch' := fs.Write(file, data, chain[k]);
      chain := chain[k := ch'];
      ghost var open' := s.open[k := Advanced(s.open[k], ch', |data|)];
      forall j | j in handles ensures handles[j].Value() == open'[j] {
        assert j != k ==> handles[j] != file;
      }
      ValuesIs(handles, open');
      StepRefines(L, s, Op.Write(k, data), View(), Done(status));
    }

    method Read(file: SmartFile, ghost k: nat, size: nat) returns (data: seq<byte>)
      requires Valid() && k in handles && handles[k] == file
      modifies this, file, fs.fatCache
      ensures Valid() && Call(fs.Lay(), old(View()), Op.Read(k, size), View(), Got(data))
      ensures handles == old(handles)
    {
      hide Inv, Abs, Do, DirOf, PutSlot, ScanFind, ScanStop, ScanFree, Name83, NewEntry, MarkDeleted, SectorOf,
        FileBytes, Sectors, HasRoom, ClustersAfter, Table, WithInfo, FileOk,
        LayoutOk, Call, Values;
      ghost var L, s := fs.Lay(), View();
      ValuesAt(handles);
      HandleInChain(L, s, k);
      FilesOkAt(L, s, k);
      var buffer := new byte[size];
      var status, n := fs.Read(file, buffer, size, chain[k]);
      data := buffer[..n];
      ghost var t := s.(open := s.open[k := s.open[k].(position := s.open[k].position + n)]);
      forall j | j in handles ensures handles[j].Value() == t.open[j] {
        assert j != k ==> handles[j] != file;
      }
      ValuesIs(handles, t.open);
      ReadIsStep(L, s, k, size, t, n, data);
    }

    /** The explicit update of the entry, under the name the file was opened with. */
    method Update(name: seq<byte>, file: SmartFile, ghost k: nat) returns (status: FsStatus)
      requires Valid() && k in handles && handles[k] == file && Name83(name) == Name83(file.filename)
      modifies fs.dev
      ensures Valid() && Call(fs.Lay(), old(View()), Op.Update(k), View(), Done(status))
      ensures handles == old(handles)
    {
      hide Inv, Abs, Do, DirOf, PutSlot, ScanFind, ScanStop, ScanFree, Name83, NewEntry, MarkDeleted, SectorOf,
        FileBytes, Sectors, HasRoom, ClustersAfter, Table, WithInfo, FileOk;
      ghost var L, s := fs.Lay(), View();
      status := DirectoryOps.UpdateFileInfo(fs, name, file.firstCluster, file.fileSize);
      assert View().open == s.open;
      StepRefines(L, s, Op.Update(k), View(), Done(status));
    }

    method Close(file: SmartFile, ghost k: nat) returns (status: FsStatus)
      requires Valid() && k in handles && handles[k] == file
      modifies this, fs.dev
      ensures Valid() && Call(fs.Lay(), old(View()), Op.Close(k), View(), Done(status))
      ensures handles == old(handles) - {k}
    {
      hide Inv, Abs, Do, DirOf, PutSlot, ScanFind, ScanStop, ScanFree, Name83, NewEntry, MarkDeleted, SectorOf,
        FileBytes, Sectors, HasRoom, ClustersAfter, Table, WithInfo, FileOk;
      ghost var L, s := fs.Lay(), View();
      status := DirectoryOps.Close(fs, file);
      handles := handles - {k};
      assert View().open == s.open - {k};
      StepRefines(L, s, Op.Close(k), View(), Done(status));
    }
  }
}
