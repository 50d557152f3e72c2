/** The driver's operations on the root directory: lookup, open, create, delete, close. */
module DirectoryOps {
  import opened Bytes
  import opened Volume
  import opened Directory
  import opened FileSystem

  // ----- names -----

  /** The position of the first dot, or the length of the name: what `strchr` is used for. */
  method FindDot(filename: seq<byte>) returns (p: nat)
    ensures p == DotAt(filename)
  {
    p := 0;
    while p < |filename| && filename[p] != DOT
      invariant p <= |filename| && forall i :: 0 <= i < p ==> filename[i] != DOT
    {
      p := p + 1;
    }
    DotAtUnique(filename, p);
  }

  /** The name as lookup and update see it: field by field, padding as it goes. */
  method FilenameTo83(filename: seq<byte>) returns (name83: seq<byte>)
    ensures name83 == Name83(filename)
  {
    var dot := FindDot(filename);
    var out := new byte[11];
    for i := 0 to 8
      invariant forall k :: 0 <= k < i ==> out[k] == Pad(Base(filename), 8)[k]
    {
      out[i] := if i < dot && filename[i] != SPACE then Upper(filename[i]) else SPACE;
    }
    if dot < |filename| {
      var ext := filename[dot + 1..];
      for i := 0 to 3
        invariant forall k :: 0 <= k < 8 ==> out[k] == Pad(Base(filename), 8)[k]
        invariant forall k :: 0 <= k < i ==> out[8 + k] == Pad(Ext(filename), 3)[k]
      {
        out[8 + i] := if i < |ext| && ext[i] != SPACE then Upper(ext[i]) else SPACE;
      }
    } else {
      out[8], out[9], out[10] := SPACE, SPACE, SPACE;
    }
    name83 := out[..];
    assert name83 == Name83(filename);
  }

  /** The length of the string in a zero-terminated buffer. */
  method StrLen(a: array<byte>) returns (n: nat)
    requires exists i :: 0 <= i < a.Length && a[i] == 0
    ensures n < a.Length && a[n] == 0 && forall i :: 0 <= i < n ==> a[i] != 0
  {
    n := 0;
    while a[n] != 0
      invariant n < a.Length && forall i :: 0 <= i < n ==> a[i] != 0
      decreases a.Length - n
    {
      var i :| 0 <= i < a.Length && a[i] == 0;
      n := n + 1;
    }
  }

  /**
   One name field as `create` and `delete` build it: copied into a zeroed buffer of
   `n + 1` bytes, cut at `n`, upper-cased up to the terminator.
   */
  method NameField(part: seq<byte>, n: nat) returns (field: seq<byte>)
    requires 0 !in part
    ensures |field| <= n && field + Fill(SPACE, n - |field|) == Pad(part, n)
  {
    var buf := new byte[n + 1](_ => 0);
    var len := if |part| > n then n else |part|;
    MemCpy(buf, 0, part[..len]);
    assert forall k :: 0 <= k < n + 1 ==> buf[..][k] == if k < len then part[k] else 0;
    var i := 0;
    while i < n && buf[i] != 0
      invariant i <= len
      invariant forall k :: 0 <= k < n + 1 ==>
        buf[k] == if k < i then Upper(part[k]) else if k < len then part[k] else 0
    {
      if 97 <= buf[i] <= 122 {
        buf[i] := buf[i] - 97 + 65;
      }
      i := i + 1;
    }
    assert i == len;
    var size := StrLen(buf);
    assert size == len;
    field := buf[..size];
  }

  /** The name and extension fields of a file name. */
  method SplitName(filename: seq<byte>) returns (name: seq<byte>, ext: seq<byte>)
    requires 0 !in filename
    ensures |name| <= 8 && |ext| <= 3
    ensures name + Fill(SPACE, 8 - |name|) + (ext + Fill(SPACE, 3 - |ext|)) == Name83(filename)
  {
    var dot := FindDot(filename);
    name := NameField(filename[..dot], 8);
    if dot < |filename| {
      ext := NameField(filename[dot + 1..], 3);
    } else {
      ext := [];
      assert Fill(SPACE, 3) == Pad([], 3);
      assert [] + Fill(SPACE, 3) == Fill(SPACE, 3);
    }
  }

  /** Compares an entry field with a string that spaces fill up. */
  method FieldMatches(slot: seq<byte>, field: seq<byte>) returns (same: bool)
    requires |field| <= |slot|
    ensures same <==> slot == field + Fill(SPACE, |slot| - |field|)
  {
    same := true;
    for k := 0 to |slot|
      invariant same
      invariant forall i :: 0 <= i < k ==> slot[i] == (field + Fill(SPACE, |slot| - |field|))[i]
    {
      var c1 := if k < |field| then field[k] else SPACE;
      if slot[k] != c1 {
        assert slot[k] != (field + Fill(SPACE, |slot| - |field|))[k];
        return false;
      }
    }
  }

  // ----- lookup -----

  /** Entry `16 * i + j` is the `j`-th 32-byte piece of directory sector `i`. */
  lemma SlotInSector(L: Layout, d: Disk, i: nat, j: nat)
    requires L.rootStart + ROOT_SECTORS <= |d| && i < ROOT_SECTORS && j < SLOTS_PER_SECTOR
    ensures DirOf(L, d)[16 * i + j] == d[L.rootStart + i][32 * j..32 * j + 32]
  {
    assert (16 * i + j) / SLOTS_PER_SECTOR == i && (16 * i + j) % SLOTS_PER_SECTOR == j;
    assert SlotAt(L, d, 16 * i + j) == d[L.rootStart + i][32 * j..32 * j + 32];
  }

  lemma RootOnDevice(L: Layout, total: nat)
    requires LayoutOk(L, total)
    ensures L.rootStart + ROOT_SECTORS <= total
  {
  }

  /** Reads directory sector `i`; it is on the device, so the driver's error returns are not taken. */
  method ReadRootSector(fs: Fs, i: nat, buffer: array<byte>)
    requires fs.Mounted() && i < ROOT_SECTORS && buffer.Length == SECTOR_SIZE
    modifies buffer
    ensures fs.Disk() == old(fs.Disk())
    ensures forall j :: 0 <= j < SLOTS_PER_SECTOR ==>
      buffer[32 * j..32 * j + 32] == DirOf(fs.Lay(), fs.Disk())[16 * i + j]
    ensures buffer[..] == fs.Disk()[fs.rootStart + i]
  {
    var _ := BlockRead(fs.dev, fs.rootStart + i, buffer);
    forall j | 0 <= j < SLOTS_PER_SECTOR
      ensures buffer[32 * j..32 * j + 32] == DirOf(fs.Lay(), fs.Disk())[16 * i + j]
    {
      SlotInSector(fs.Lay(), fs.Disk(), i, j);
      assert buffer[32 * j..32 * j + 32] == buffer[..][32 * j..32 * j + 32];
    }
  }

  /** One step of the lookup. */
  lemma FindStep(dir: seq<Dirent>, name: seq<byte>, i: nat, j: nat)
    requires 16 * i + j < |dir| && j < SLOTS_PER_SECTOR
    ensures var e, k := dir[16 * i + j], 16 * i + j;
            ScanFind(dir, name, k) == if e[0] == 0 then ScanFind(dir, name, 16 * (i + 1))
                                      else if e[0] != DELETED && e[..11] == name then k
                                      else ScanFind(dir, name, k + 1)
  {
    assert (16 * i + j) / SLOTS_PER_SECTOR == i;
  }

  lemma FindEnds(dir: seq<Dirent>, name: seq<byte>)
    ensures ScanFind(dir, name, |dir|) == |dir|
  {
  }

  method FindFileInRoot(fs: Fs, filename: seq<byte>) returns (status: FsStatus, dirent: Dirent)
    requires fs.Mounted()
    ensures var dir := DirOf(fs.Lay(), fs.Disk());
            var r := ScanFind(dir, Name83(filename), 0);
            if r < DIR_SLOTS then status == FsOk && dirent == dir[r] else status == FsNotFound
  {
    hide DirOf, SlotAt, Name83, SectorOf, LayoutOk, Overlay, ScanFind, NameOf;
    var name83 := FilenameTo83(filename);
    ghost var dir := DirOf(fs.Lay(), fs.Disk());
    var sectorBuffer := new byte[SECTOR_SIZE];
    for i := 0 to ROOT_SECTORS
      invariant ScanFind(dir, name83, 0) == ScanFind(dir, name83, 16 * i)
    {
      ReadRootSector(fs, i, sectorBuffer);
      var j := 0;
      while j < SLOTS_PER_SECTOR
        invariant j <= SLOTS_PER_SECTOR
        invariant ScanFind(dir, name83, 0) == ScanFind(dir, name83, 16 * i + j)
        modifies {}
      {
        dirent := sectorBuffer[32 * j..32 * j + 32];
        assert dirent == dir[16 * i + j];
        FindStep(dir, name83, i, j);
        if dirent[0] == 0x00 {
          break;
        }
        if dirent[0] != 0xE5 && dirent[..11] == name83 {
          return FsOk, dirent;
        }
        j := j + 1;
      }
    }
    FindEnds(dir, name83);
    status, dirent := FsNotFound, Fill(0, DIRENT_SIZE);
  }

  // ----- rewriting an entry -----

  /** Writes back directory sector `i` after entry `j` of the buffer has been rewritten to `e`. */
  method WriteRootSector(fs: Fs, i: nat, j: nat, e: Dirent, buffer: array<byte>)
    requires fs.Mounted() && i < ROOT_SECTORS && j < SLOTS_PER_SECTOR && buffer.Length == SECTOR_SIZE
    requires buffer[..] == Overlay(fs.Disk()[fs.rootStart + i], 32 * j, e)
    modifies fs.dev
    ensures fs.Disk() == PutSlot(fs.Lay(), old(fs.Disk()), 16 * i + j, e)
  {
    var _ := BlockWrite(fs.dev, fs.rootStart + i, buffer);
  }

  /** Rewrites bytes of entry `j` of a buffered directory sector, of which `e` was the entry. */
  method PatchEntry(buffer: array<byte>, j: nat, ghost s: Sector, ghost e: Dirent, off: nat, part: seq<byte>)
    requires buffer.Length == SECTOR_SIZE && j < SLOTS_PER_SECTOR && off + |part| <= DIRENT_SIZE
    requires buffer[..] == Overlay(s, 32 * j, e)
    modifies buffer
    ensures buffer[..] == Overlay(s, 32 * j, Overlay(e, off, part))
  {
    MemCpy(buffer, 32 * j + off, part);
  }

  lemma EntryOfSector(s: Sector, j: nat, e: Dirent)
    requires j < SLOTS_PER_SECTOR && s[32 * j..32 * j + 32] == e
    ensures s == Overlay(s, 32 * j, e)
  {
  }

  lemma PatchIsWithInfo(e: Dirent, first: nat, size: nat)
    ensures Overlay(e, 26, Le16(first) + Le32(size)) == WithInfo(e, first, size)
  {
  }

  /** Stores a file's first cluster and size in the entry found under its name. */
  method UpdateFileInfo(fs: Fs, filename: seq<byte>, firstCluster: nat, fileSize: nat) returns (status: FsStatus)
    requires fs.Mounted()
    modifies fs.dev
    ensures var L, d := fs.Lay(), old(fs.Disk());
            var r := ScanStop(DirOf(L, d), Name83(filename), 0);
            if r < DIR_SLOTS
            then status == FsOk && fs.Disk() == PutSlot(L, d, r, WithInfo(DirOf(L, d)[r], firstCluster, fileSize))
            else status == FsNotFound && fs.Disk() == d
  {
    hide DirOf, SlotAt, Name83, SectorOf, PutSlot, LayoutOk, Overlay;
    var name83 := FilenameTo83(filename);
    ghost var dir := DirOf(fs.Lay(), fs.Disk());
    var sectorBuffer := new byte[SECTOR_SIZE];
    for i := 0 to ROOT_SECTORS
      invariant ScanStop(dir, name83, 0) == ScanStop(dir, name83, 16 * i)
      invariant fs.Disk() == old(fs.Disk())
    {
      ReadRootSector(fs, i, sectorBuffer);
      for j := 0 to SLOTS_PER_SECTOR
        invariant ScanStop(dir, name83, 0) == ScanStop(dir, name83, 16 * i + j)
      {
        var entry: Dirent := sectorBuffer[32 * j..32 * j + 32];
        assert entry == dir[16 * i + j];
        if entry[0] == 0x00 {
          return FsNotFound;
        }
        if entry[0] != 0xE5 && entry[..11] == name83 {
          ghost var was: Sector := sectorBuffer[..];
          EntryOfSector(was, j, entry);
          PatchEntry(sectorBuffer, j, was, entry, 26, Le16(firstCluster) + Le32(fileSize));
          PatchIsWithInfo(entry, firstCluster, fileSize);
          WriteRootSector(fs, i, j, WithInfo(entry, firstCluster, fileSize), sectorBuffer);
          return FsOk;
        }
      }
    }
    status := FsNotFound;
  }

  /** Builds a fresh entry in a buffered directory sector, field by field. */
  method FillEntry(buffer: array<byte>, j: nat, name: seq<byte>, ext: seq<byte>, ghost name83: seq<byte>)
    requires buffer.Length == SECTOR_SIZE && j < SLOTS_PER_SECTOR
    requires |name| <= 8 && |ext| <= 3 && |name83| == 11
    requires name + Fill(SPACE, 8 - |name|) + (ext + Fill(SPACE, 3 - |ext|)) == name83
    modifies buffer
    ensures buffer[..] == Overlay(old(buffer[..]), 32 * j, NewEntry(name83))
  {
    ghost var was: Sector := buffer[..];
    MemCpy(buffer, 32 * j, Fill(0, DIRENT_SIZE));
    ghost var e0: Dirent := Fill(0, DIRENT_SIZE);
    PatchEntry(buffer, j, was, e0, 0, Fill(SPACE, 8));
    ghost var e1: Dirent := Overlay(e0, 0, Fill(SPACE, 8));
    PatchEntry(buffer, j, was, e1, 8, Fill(SPACE, 3));
    ghost var e2: Dirent := Overlay(e1, 8, Fill(SPACE, 3));
    PatchEntry(buffer, j, was, e2, 0, name);
    ghost var e3: Dirent := Overlay(e2, 0, name);
    PatchEntry(buffer, j, was, e3, 8, ext);
    ghost var e4: Dirent := Overlay(e3, 8, ext);
    PatchEntry(buffer, j, was, e4, 11, [0x20]);
    assert Overlay(e4, 11, [0x20]) == NewEntry(name83);
  }

  /** The names `create` takes. */
  predicate NameLengthOk(filename: seq<byte>) { 0 < |filename| <= 12 }

  /** Creates an empty file in the first entry that is free; a file of the same name is not looked for. */
  method Create(fs: Fs, filename: seq<byte>) returns (status: FsStatus)
    requires fs.dev == null || fs.rootStart == 0 || fs.Mounted()
    requires 0 !in filename
    modifies fs.dev
    ensures fs.dev == null || fs.rootStart == 0 ==> status == FsError
    ensures fs.dev != null && (fs.rootStart == 0 || !NameLengthOk(filename)) ==> fs.Disk() == old(fs.Disk())
    ensures fs.dev != null && fs.rootStart != 0 && !NameLengthOk(filename) ==> status == FsInvalid
    ensures fs.dev != null && fs.rootStart != 0 && NameLengthOk(filename) ==>
      var L, d := fs.Lay(), old(fs.Disk());
      var r := ScanFree(DirOf(L, d), 0);
      if r < DIR_SLOTS then status == FsOk && fs.Disk() == PutSlot(L, d, r, NewEntry(Name83(filename)))
      else status == FsFull && fs.Disk() == d
  {
    hide DirOf, SlotAt, Name83, SectorOf, PutSlot, NewEntry, LayoutOk, Overlay;
    if fs.dev == null || fs.rootStart == 0 {
      return FsError;
    }
    if |filename| == 0 || |filename| > 12 {
      return FsInvalid;
    }
    var name, ext := SplitName(filename);
    ghost var dir := DirOf(fs.Lay(), fs.Disk());
    var sectorBuffer := new byte[SECTOR_SIZE];
    for i := 0 to ROOT_SECTORS
      invariant ScanFree(dir, 0) == ScanFree(dir, 16 * i)
      invariant fs.Disk() == old(fs.Disk())
    {
      ReadRootSector(fs, i, sectorBuffer);
      for j := 0 to SLOTS_PER_SECTOR
        invariant ScanFree(dir, 0) == ScanFree(dir, 16 * i + j)
      {
        var entry: Dirent := sectorBuffer[32 * j..32 * j + 32];
        assert entry == dir[16 * i + j];
        if entry[0] == 0x00 || entry[0] == 0xE5 {
          FillEntry(sectorBuffer, j, name, ext, Name83(filename));
          WriteRootSector(fs, i, j, NewEntry(Name83(filename)), sectorBuffer);
          return FsOk;
        }
      }
    }
    status := FsFull;
  }

  /** Marks the entry of a file as deleted; its clusters stay allocated. */
  method Delete(fs: Fs, filename: seq<byte>) returns (status: FsStatus)
    requires fs.dev == null || fs.rootStart == 0 || fs.Mounted()
    requires 0 !in filename
    modifies fs.dev
    ensures fs.dev == null || fs.rootStart == 0 ==> status == FsError
    ensures fs.dev != null && fs.rootStart == 0 ==> fs.Disk() == old(fs.Disk())
    ensures fs.dev != null && fs.rootStart != 0 ==>
      var L, d := fs.Lay(), old(fs.Disk());
      var r := ScanStop(DirOf(L, d), Name83(filename), 0);
      if r < DIR_SLOTS then status == FsOk && fs.Disk() == PutSlot(L, d, r, MarkDeleted(DirOf(L, d)[r]))
      else status == FsNotFound && fs.Disk() == d
  {
    hide DirOf, SlotAt, Name83, SectorOf, PutSlot, LayoutOk, Overlay;
    if fs.dev == null || fs.rootStart == 0 {
      return FsError;
    }
    var name, ext := SplitName(filename);
    RootOnDevice(fs.Lay(), fs.dev.Length);
    ghost var dir, name83 := DirOf(fs.Lay(), fs.Disk()), Name83(filename);
    var sectorBuffer := new byte[SECTOR_SIZE];
    for i := 0 to ROOT_SECTORS
      invariant ScanStop(dir, name83, 0) == ScanStop(dir, name83, 16 * i)
      invariant fs.Disk() == old(fs.Disk())
    {
      ReadRootSector(fs, i, sectorBuffer);
      for j := 0 to SLOTS_PER_SECTOR
        invariant ScanStop(dir, name83, 0) == ScanStop(dir, name83, 16 * i + j)
        invariant fs.Disk() == old(fs.Disk()) && sectorBuffer[..] == fs.Disk()[fs.rootStart + i]
      {
        var entry: Dirent := sectorBuffer[32 * j..32 * j + 32];
        SlotInSector(fs.Lay(), fs.Disk(), i, j);
        assert entry == sectorBuffer[..][32 * j..32 * j + 32];
        if entry[0] == 0x00 {
          return FsNotFound;
        }
        var nameMatch := FieldMatches(entry[..8], name);
        var extMatch := FieldMatches(entry[8..11], ext);
        TwoFields(entry, name, ext, name83);
        if entry[0] != 0xE5 && nameMatch && extMatch {
          ghost var was: Sector := sectorBuffer[..];
          EntryOfSector(was, j, entry);
          PatchEntry(sectorBuffer, j, was, entry, 0, [0xE5]);
          assert Overlay(entry, 0, [0xE5]) == MarkDeleted(entry);
          WriteRootSector(fs, i, j, MarkDeleted(entry), sectorBuffer);
          return FsOk;
        }
      }
    }
    status := FsNotFound;
  }

  lemma TwoFields(e: Dirent, name: seq<byte>, ext: seq<byte>, name83: seq<byte>)
    requires |name| <= 8 && |ext| <= 3
    requires name + Fill(SPACE, 8 - |name|) + (ext + Fill(SPACE, 3 - |ext|)) == name83
    ensures e[..8] == name + Fill(SPACE, 8 - |name|) && e[8..11] == ext + Fill(SPACE, 3 - |ext|)
       <==> NameOf(e) == name83
  {
    assert NameOf(e) == e[..8] + e[8..11];
    assert name83[..8] == name + Fill(SPACE, 8 - |name|) && name83[8..] == ext + Fill(SPACE, 3 - |ext|);
    assert NameOf(e)[..8] == e[..8] && NameOf(e)[8..] == e[8..11];
  }

  // ----- handles -----

  /** The handle of a file just opened from its entry. */
  function OpenedHandle(e: Dirent, filename: seq<byte>): Handle {
    Handle(FirstOf(e), FirstOf(e), SizeOf(e), 0, e[11] / 16 % 2 == 1, Remembered(filename))
  }

  /** What an opened handle shows: bit 4 of the attributes says that the entry is a directory. */
  lemma OpenedShows(e: Dirent, filename: seq<byte>)
    ensures var h := OpenedHandle(e, filename);
            && h.position == 0 && h.fileSize == SizeOf(e) && h.firstCluster == h.currentCluster == FirstOf(e)
            && (h.isDir <==> 16 <= e[11] as nat % 32)
  {
    assert e[11] as nat % 32 == 16 * (e[11] as nat / 16 % 2) + e[11] as nat % 16;
  }

  method Open(fs: Fs, filename: seq<byte>, file: SmartFile) returns (status: FsStatus)
    requires fs.Mounted()
    modifies file
    ensures var dir := DirOf(fs.Lay(), fs.Disk());
            var r := ScanFind(dir, Name83(filename), 0);
            if r < DIR_SLOTS then status == FsOk && file.Value() == OpenedHandle(dir[r], filename)
            else status == FsNotFound && file.Value() == old(file.Value())
  {
    var dirent;
    status, dirent := FindFileInRoot(fs, filename);
    if status != FsOk {
      return FsNotFound;
    }
    file.firstCluster := FirstOf(dirent);
    file.currentCluster := FirstOf(dirent);
    file.fileSize := SizeOf(dirent);
    file.position := 0;
    file.isDir := dirent[11] / 16 % 2 == 1;
    file.filename := if |filename| > 11 then filename[..11] else filename;
  }

  method Close(fs: Fs, file: SmartFile) returns (status: FsStatus)
    requires fs.Mounted()
    modifies fs.dev
    ensures var L, d := fs.Lay(), old(fs.Disk());
            var r := ScanStop(DirOf(L, d), Name83(file.filename), 0);
            if r < DIR_SLOTS
            then status == FsOk
              && fs.Disk() == PutSlot(L, d, r, WithInfo(DirOf(L, d)[r], file.firstCluster, file.fileSize))
            else status == FsNotFound && fs.Disk() == d
  {
    status := UpdateFileInfo(fs, file.filename, file.firstCluster, file.fileSize);
  }
}
