/** Filling the shipped 96-sector device: what the allocator then hands out. */
module FullVolume {
  import opened Bytes
  import opened Fat12
  import opened Volume
  import opened Append
  import opened Directory
  import opened DirectoryOps
  import opened FileSystem
  import opened FsRuns
  import opened FsSession
  import opened FsTheorems
  import opened Format

  lemma MayCreateAndOpen(L: Layout, s: State, name: seq<byte>)
    requires LayoutOk(L, |s.d|) && s.open == map[] && 0 !in name && 0 < |name| <= HANDLE_NAME && name[0] != DELETED
    ensures Allowed(L, s, Op.Create(name)) && Allowed(L, s, Op.Open(name))
  {
    hide Name83, DirOf;
  }

  lemma MayWriteFirst(L: Layout, s: State, data: seq<byte>)
    requires LayoutOk(L, |s.d|) && 0 in s.open && s.open[0].fileSize == 0 && s.chain == map[0 := []]
    requires HasRoom(L, s.d, 0, [], |data|)
    ensures Allowed(L, s, Op.Write(0, data))
  {
    hide HasRoom, DirOf;
  }

  /** On an empty volume, creating a file uses the first entry, and takes no cluster. */
  lemma CreatedFirst(L: Layout, s: State, name: seq<byte>, s': State, status: FsStatus)
    requires Inv(L, s) && s.chain == map[] && SlotOf(L, s, 0) == Unused && NameLengthOk(name)
    requires Call(L, s, Op.Create(name), s', Done(status))
    ensures status == FsOk && LayoutOk(L, |s'.d|) && s'.open == s.open && s'.chain == map[0 := []]
    ensures DirOf(L, s'.d)[0] == NewEntry(Name83(name)) && Table(L, s'.d) == Table(L, s.d)
  {
    hide DirOf, PutSlot, NewEntry, Name83, TableOf, FileOk, FilesOk, ChainsApart, DirOk;
    var dir := DirOf(L, s.d);
    assert ScanFree(dir, 0) == 0;
    PutSlotOne(L, s.d, 0, NewEntry(Name83(name)));
    TableKept(L, s.d, 0, NewEntry(Name83(name)));
  }

  /** The new file is the one that is found under its name, and it is empty. */
  lemma OpenedFirst(L: Layout, s: State, name: seq<byte>, s': State, status: FsStatus)
    requires LayoutOk(L, |s.d|) && s.open == map[] && s.chain == map[0 := []]
    requires DirOf(L, s.d)[0] == NewEntry(Name83(name)) && 0 !in name && |name| > 0 && name[0] != DELETED
    requires Call(L, s, Op.Open(name), s', Done(status))
    ensures status == FsOk && ScanFind(DirOf(L, s.d), Name83(name), 0) == 0
    ensures s'.d == s.d && s'.chain == s.chain && 0 in s'.open && s'.open[0].fileSize == 0
  {
    hide DirOf, NewEntry, Name83;
    NameIsLive(name);
    NewEntryFields(Name83(name));
    assert ScanFind(DirOf(L, s.d), Name83(name), 0) == 0;
  }

  /** 77 clusters are room for as many sectors of bytes, and then cluster 79 is the first free one. */
  lemma Fills(L: Layout, s: State)
    requires LayoutOk(L, |s.d|) && L.spc == 1 && L.maxCluster == 78
    requires forall c :: 2 <= c < FAT_ENTRIES ==> Table(L, s.d)[c] == 0
    ensures HasRoom(L, s.d, 0, [], 77 * SECTOR_SIZE) && ClustersAfter(L, 0, 77 * SECTOR_SIZE) == 77
    ensures |FreeList(Table(L, s.d))| == FAT_ENTRIES - 2 && FreeList(Table(L, s.d))[77..][0] == 79
  {
    hide TableOf;
    AllFree(Table(L, s.d), 2);
    assert (77 * SECTOR_SIZE + SECTOR_SIZE - 1) / SECTOR_SIZE == 77;
  }

  lemma SectorCount(maxCluster: nat)
    ensures FormatLayout(96, maxCluster) == Layout(1, 5, 19, 1, maxCluster)
    ensures LastCluster(FormatLayout(96, 0), 96) == 78
  {
    TableSize(96);
  }

  /** After the write, the free list starts beyond the volume. */
  lemma FilledUp(L: Layout, s: State, data: seq<byte>, s': State, status: FsStatus)
    requires LayoutOk(L, |s.d|) && L.spc == 1 && 0 in s.open && s.open[0].fileSize == 0 && s.chain == map[0 := []]
    requires |FreeList(Table(L, s.d))| == FAT_ENTRIES - 2 && FreeList(Table(L, s.d))[77..][0] == 79
    requires |data| == 77 * SECTOR_SIZE && ClustersAfter(L, 0, |data|) == 77
    requires Call(L, s, Op.Write(0, data), s', Done(status))
    ensures LayoutOk(L, |s'.d|) && |FreeList(Table(L, s'.d))| > 0 && FreeList(Table(L, s'.d))[0] == 79
  {
    hide FreeList, TableOf, FileBytes, Sectors, InVolume, Holds, SameOutside, IsChain;
  }

  /** Formats the device and mounts it. */
  method NewSession(dev: array<Sector>) returns (session: Session)
    requires dev.Length == 96
    modifies dev
    ensures fresh(session) && fresh(session.fs) && fresh(session.fs.fatCache)
    ensures session.Valid() && session.fs.dev == dev && session.handles == map[] && session.View().chain == map[]
    ensures session.fs.Lay() == FormatLayout(96, 78) && SlotOf(session.fs.Lay(), session.View(), 0) == Unused
    ensures forall c :: 2 <= c < FAT_ENTRIES ==> Table(session.fs.Lay(), session.fs.Disk())[c] == 0
  {
    hide Inv, TableOf, SlotOf, LayoutOk, FormatLayout, LastCluster;
    var fs := new Fs();
    var status := FormatThenInit(fs, dev);
    SectorCount(fs.maxCluster);
    session := new Session(fs, map[]);
  }

  /** Creates and opens a file on it. */
  method NewFile(dev: array<Sector>) returns (session: Session, file: SmartFile)
    requires dev.Length == 96
    modifies dev
    ensures fresh(session) && fresh(session.fs) && fresh(session.fs.fatCache) && fresh(file)
    ensures session.Valid() && session.fs.dev == dev && session.handles == map[0 := file]
    ensures session.fs.Lay() == FormatLayout(96, 78)
    ensures session.View().chain == map[0 := []] && file.fileSize == 0
    ensures forall c :: 2 <= c < FAT_ENTRIES ==> Table(session.fs.Lay(), session.fs.Disk())[c] == 0
  {
    hide Inv, Call, Allowed, Step, DirOf, Name83, NewEntry, TableOf, FreeList, FreeFrom, SlotOf, ScanFind, HasRoom,
      LayoutOk, FormatLayout, Fill;
    session := NewSession(dev);
    ghost var L, s0 := session.fs.Lay(), session.View();
    var name: seq<byte> := [65];
    MayCreateAndOpen(L, s0, name);
    var status := session.Create(name);
    ghost var s1 := session.View();
    CreatedFirst(L, s0, name, s1, status);
    file := new SmartFile();
    MayCreateAndOpen(L, s1, name);
    status := session.Open(name, file);
    OpenedFirst(L, s1, name, session.View(), status);
  }

  /**
   Writes 77 clusters of a file full. The next allocation returns the cluster whose first
   sector is the one after the last of the device.
   */
  method AllocateWhenFull(dev: array<Sector>) returns (fs: Fs, cluster: nat)
    requires dev.Length == 96
    modifies dev
    ensures cluster == 79 && fs.dev == dev && SectorOf(fs.Lay(), cluster, 0) == dev.Length
  {
    hide Inv, Call, Allowed, Step, DirOf, TableOf, FreeList, HasRoom, LayoutOk, FormatLayout;
    SectorCount(78);
    var session, file := NewFile(dev);
    fs := session.fs;
    ghost var L, s := fs.Lay(), session.View();
    var data := Fill(0, 77 * SECTOR_SIZE);
    Fills(L, s);
    MayWriteFirst(L, s, data);
    var status := session.Write(file, 0, data);
    FilledUp(L, s, data, session.View(), status);
    cluster := fs.AllocateCluster();
  }
}
