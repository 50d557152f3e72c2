/**
 The file system driver over a device of 512-byte sectors: table entries, the
 cluster allocator, the append-only writer and the chunked reader.
 */
module FileSystem {
  import opened Arithmetic
  import opened Bytes
  import opened Fat12
  import opened Volume
  import opened Append

  datatype BlockStatus = BlockOk | BlockError | BlockInvalid

  datatype FsStatus = FsOk | FsError | FsNotFound | FsInvalid | FsFull

  /** The fields of a file handle, as a value. */
  datatype Handle = Handle(firstCluster: nat, currentCluster: nat, fileSize: nat, position: nat,
                           isDir: bool, filename: seq<byte>)

  class SmartFile {
    var firstCluster: nat
    var currentCluster: nat
    var fileSize: nat
    var position: nat
    var isDir: bool
    var filename: seq<byte>

    constructor ()
      ensures Value() == Handle(0, 0, 0, 0, false, [])
    {
      firstCluster, currentCluster, fileSize, position, isDir, filename := 0, 0, 0, 0, false, [];
    }

    function Value(): Handle
      reads this
    {
      Handle(firstCluster, currentCluster, fileSize, position, isDir, filename)
    }
  }

  // ----- block device -----

  /** Reads one sector into a 512-byte buffer. */
  method BlockRead(dev: array?<Sector>, sector: nat, buffer: array<byte>) returns (status: BlockStatus)
    requires buffer.Length == SECTOR_SIZE
    modifies buffer
    ensures status == if dev == null then BlockInvalid else if sector >= dev.Length then BlockError else BlockOk
    ensures status == BlockOk ==> buffer[..] == dev[sector]
    ensures status != BlockOk ==> buffer[..] == old(buffer[..])
  {
    if dev == null {
      return BlockInvalid;
    }
    if sector + 1 > dev.Length {
      return BlockError;
    }
    for i := 0 to SECTOR_SIZE
      invariant forall k :: 0 <= k < i ==> buffer[k] == dev[sector][k]
    {
      buffer[i] := dev[sector][i];
    }
    return BlockOk;
  }

  /** Writes one sector from a 512-byte buffer. */
  method BlockWrite(dev: array?<Sector>, sector: nat, buffer: array<byte>) returns (status: BlockStatus)
    requires buffer.Length == SECTOR_SIZE
    modifies dev
    ensures status == if dev == null then BlockInvalid else if sector >= dev.Length then BlockError else BlockOk
    ensures dev != null && status == BlockOk ==> dev[..] == old(dev[..])[sector := buffer[..]]
    ensures dev != null && status != BlockOk ==> dev[..] == old(dev[..])
  {
    if dev == null {
      return BlockInvalid;
    }
    if sector + 1 > dev.Length {
      return BlockError;
    }
    dev[sector] := buffer[..];
    return BlockOk;
  }

  /** Copies `src` into `dst` from offset `off` on. */
  method MemCpy(dst: array<byte>, off: nat, src: seq<byte>)
    requires off + |src| <= dst.Length
    modifies dst
    ensures dst[..] == Overlay(old(dst[..]), off, src)
  {
    for i := 0 to |src|
      invariant forall k :: 0 <= k < dst.Length ==> dst[k] == if off <= k < off + i then src[k - off] else old(dst[k])
    {
      dst[off + i] := src[i];
    }
  }

  lemma TakeMore<T>(s: seq<T>, i: nat, n: nat)
    requires i + n <= |s|
    ensures s[..i] + s[i..i + n] == s[..i + n]
  {
  }

  lemma FreeHere(t: FatTable, c: nat)
    requires c < |t| && t[c] == 0
    ensures |FreeFrom(t, c)| > 0 && FreeFrom(t, c)[0] == c
  {
  }

  /** A cluster in use is not the head of the free list. */
  lemma FreePass(t: FatTable, c: nat)
    requires c < |t| && t[c] != 0 && |FreeFrom(t, c)| > 0
    ensures FreeFrom(t, c) == FreeFrom(t, c + 1) && c + 1 <= FreeFrom(t, c)[0]
  {
    FreeFromExact(t, c + 1);
    assert FreeFrom(t, c + 1)[0] in FreeFrom(t, c + 1);
  }

  class Fs {
    var dev: array?<Sector>
    var fatStart: nat
    var rootStart: nat
    var dataStart: nat
    var spc: nat
    const fatCache: array<byte>

    /** Not in the driver: the last cluster that fits the device. */
    ghost var maxCluster: nat

    constructor ()
      ensures dev == null && rootStart == 0
      ensures fresh(fatCache) && fatCache.Length == SECTOR_SIZE
    {
      dev, fatStart, rootStart, dataStart, spc, maxCluster := null, 0, 0, 0, 0, 0;
      fatCache := new byte[SECTOR_SIZE];
    }

    ghost function Lay(): Layout
      reads this
    {
      Layout(fatStart, rootStart, dataStart, spc, maxCluster)
    }

    ghost predicate Mounted()
      reads this
    {
      && fatCache.Length == SECTOR_SIZE
      && dev != null
      && LayoutOk(Lay(), dev.Length)
    }

    ghost function Disk(): Disk
      requires dev != null
      reads this, dev
    {
      dev[..]
    }

    // ----- table entries -----

    /** Reads one table entry; an unreadable sector reads as an end mark. */
    method ReadFatEntry(cluster: nat) returns (v: nat)
      requires fatCache.Length == SECTOR_SIZE && OneSector(cluster)
      modifies fatCache
      ensures v == if dev == null || fatStart + EntrySector(cluster) >= dev.Length then 0xFFF
                   else EntryOn(dev[..], fatStart, cluster)
    {
      var fatOffset := cluster * 3 / 2;
      var fatSector := fatStart + fatOffset / SECTOR_SIZE;
      var entryOffset := fatOffset % SECTOR_SIZE;
      var st := BlockRead(dev, fatSector, fatCache);
      if st != BlockOk {
        return 0xFFF;
      }
      assert fatCache[..][entryOffset] == fatCache[entryOffset];
      assert fatCache[..][entryOffset + 1] == fatCache[entryOffset + 1];
      var lo: nat, hi: nat := fatCache[entryOffset], fatCache[entryOffset + 1];
      if cluster % 2 == 1 {
        v := (hi * 256 + lo) / 16;
      } else {
        v := (hi % 16) * 256 + lo;
      }
    }

    method GetNextCluster(cluster: nat) returns (next: nat)
      requires Mounted() && cluster < FAT_ENTRIES
      modifies fatCache
      ensures next == if Table(Lay(), Disk())[cluster] >= END_MIN then 0xFFFF else Table(Lay(), Disk())[cluster]
    {
      next := ReadFatEntry(cluster);
      if next >= 0xFF8 {
        return 0xFFFF;
      }
    }

    /** Stores one table entry, and the same sector once more into the sector that follows. */
    method WriteFatEntry(cluster: nat, value: nat) returns (status: FsStatus)
      requires fatCache.Length == SECTOR_SIZE && OneSector(cluster)
      modifies dev, fatCache
      ensures dev != null ==>
        var i := fatStart + EntrySector(cluster);
        && status == (if i + 1 < dev.Length then FsOk else FsError)
        && dev[..] == if i + 1 < dev.Length then MirroredStore(old(dev[..]), fatStart, cluster, value)
                      else if i < dev.Length then old(dev[..])[i := StoreEntry(old(dev[i]), cluster, value)]
                      else old(dev[..])
      ensures dev == null ==> status == FsError
    {
      var fatOffset := cluster * 3 / 2;
      var fatSector := fatStart + fatOffset / SECTOR_SIZE;
      var entryOffset := fatOffset % SECTOR_SIZE;
      var st := BlockRead(dev, fatSector, fatCache);
      if st != BlockOk {
        return FsError;
      }
      ghost var was: Sector := fatCache[..];
      assert was[entryOffset] == fatCache[entryOffset] && was[entryOffset + 1] == fatCache[entryOffset + 1];
      if cluster % 2 == 1 {
        fatCache[entryOffset] := fatCache[entryOffset] % 16 + (value % 16) * 16;
        fatCache[entryOffset + 1] := value / 16 % 256;
      } else {
        fatCache[entryOffset] := value % 256;
        fatCache[entryOffset + 1] := (fatCache[entryOffset + 1] / 16) * 16 + value / 256 % 16;
      }
      assert fatCache[..] == StoreEntry(was, cluster, value);
      st := BlockWrite(dev, fatSector, fatCache);
      if st != BlockOk {
        return FsError;
      }
      st := BlockWrite(dev, fatSector + 1, fatCache);
      if st != BlockOk {
        return FsError;
      }
      return FsOk;
    }

    /** First fit: takes the least free cluster and marks it as the end of a chain. */
    method AllocateCluster() returns (cluster: nat)
      requires Mounted() && |FreeList(Table(Lay(), Disk()))| > 0
      modifies dev, fatCache
      ensures cluster == FreeList(Table(Lay(), old(Disk())))[0] < FAT_ENTRIES
      ensures Disk() == FatStore(Lay(), old(Disk()), cluster, END_OF_CHAIN)
    {
      hide FreeFrom, StoreEntry;
      ghost var t := Table(Lay(), Disk());
      FreeTake(t, 2, END_OF_CHAIN);
      cluster := 2;
      while cluster < 0xFF0
        invariant 2 <= cluster <= FreeList(t)[0] < FAT_ENTRIES
        invariant FreeFrom(t, cluster) == FreeList(t)
        invariant Disk() == old(Disk())
      {
        var value := ReadFatEntry(cluster);
        if value == 0 {
          FreeHere(t, cluster);
          var _ := WriteFatEntry(cluster, 0xFFF);
          return cluster;
        }
        FreePass(t, cluster);
        cluster := cluster + 1;
      }
      assert false;
    }

    // ----- writing -----

    /** Allocates a cluster and links it behind `last`. */
    method LinkNewCluster(last: nat) returns (cluster: nat)
      requires Mounted() && last < FAT_ENTRIES && |FreeList(Table(Lay(), Disk()))| > 0
      modifies dev, fatCache
      ensures cluster == FreeList(Table(Lay(), old(Disk())))[0] < FAT_ENTRIES
      ensures Disk() == Link(Lay(), old(Disk()), last, cluster)
    {
      cluster := AllocateCluster();
      var _ := WriteFatEntry(last, cluster);
    }

    /**
     Walks to the cluster that holds the end of the file, allocating the one that is
     due when the file exactly fills its clusters.
     */
    method SeekEnd(file: SmartFile, ghost d0: Disk, ghost ch0: seq<nat>, ghost n: nat, ghost ch: seq<nat>)
      returns (cluster: nat, ghost ch': seq<nat>)
      requires Mounted() && |d0| == dev.Length && InVolume(Lay(), ch0)
      requires HasRoom(Lay(), d0, file.fileSize, ch0, n)
      requires Extended(Lay(), d0, file.fileSize, ch0, [], Disk(), ch)
      requires |ch| <= file.fileSize / ClusterBytes(Lay()) + 1 && file.firstCluster == ch[0]
      modifies dev, fatCache
      ensures Extended(Lay(), d0, file.fileSize, ch0, [], Disk(), ch')
      ensures EndsIn(spc, |ch'|, file.fileSize)
      ensures |ch'| > 0 && cluster == ch'[|ch'| - 1] && ch'[0] == ch[0]
    {
      hide FreeList, FileBytes, Sectors;
      cluster := file.firstCluster;
      var clusterOffset := file.fileSize / (spc * SECTOR_SIZE);
      ch' := ch;
      ghost var L := Lay();
      for i := 0 to clusterOffset
        invariant |Disk()| == |d0|
        invariant Extended(L, d0, file.fileSize, ch0, [], Disk(), ch')
        invariant i < |ch'| <= clusterOffset + 1
        invariant cluster == ch'[i] && ch'[0] == ch[0]
      {
        var next := GetNextCluster(cluster);
        assert i + 1 < |ch'| ==> Table(L, Disk())[ch'[i]] == ch'[i + 1];
        if next == 0xFFFF {
          DueInSeek(L, d0, file.fileSize, ch0, n, Disk(), ch');
          GrowChain(L, d0, file.fileSize, ch0, [], Disk(), ch', FreeList(Table(L, Disk()))[0]);
          var newCluster := LinkNewCluster(cluster);
          cluster := newCluster;
          ch' := ch' + [newCluster];
        } else {
          cluster := next;
        }
      }
    }

    /** The sector in which the file ends, and the offset of its end there. */
    method LocateEnd(file: SmartFile, cluster: nat, ghost ch: seq<nat>) returns (sector: nat, offsetInSector: nat)
      requires Mounted() && InVolume(Lay(), ch)
      requires EndsIn(spc, |ch|, file.fileSize) && cluster == ch[|ch| - 1]
      ensures file.fileSize / SECTOR_SIZE < |Sectors(Lay(), ch)|
      ensures sector == Sectors(Lay(), ch)[file.fileSize / SECTOR_SIZE] < dev.Length
      ensures offsetInSector == file.fileSize % SECTOR_SIZE
    {
      EndSector(Lay(), dev.Length, ch, file.fileSize);
      var offsetInCluster := file.fileSize % (spc * SECTOR_SIZE);
      var sectorInCluster := offsetInCluster / SECTOR_SIZE;
      offsetInSector := offsetInCluster % SECTOR_SIZE;
      sector := dataStart + (cluster - 2) * spc + sectorInCluster;
    }

    /**
     Writes the next chunk into the sector where the file ends, which `cluster` holds:
     read unless the sector is replaced whole, overlay, write back, advance the handle.
     The sector is on the device, so the driver's error returns are not taken.
     */
    method WriteChunk(file: SmartFile, cluster: nat, buffer: seq<byte>, done: nat, sectorBuffer: array<byte>,
                      ghost d0: Disk, ghost size0: nat, ghost ch0: seq<nat>, ghost ch: seq<nat>)
      returns (copySize: nat)
      requires Mounted() && |d0| == dev.Length && InVolume(Lay(), ch0)
      requires sectorBuffer.Length == SECTOR_SIZE && sectorBuffer != fatCache
      requires done < |buffer| && file.fileSize == size0 + done
      requires Extended(Lay(), d0, size0, ch0, buffer[..done], Disk(), ch)
      requires EndsIn(spc, |ch|, file.fileSize) && cluster == ch[|ch| - 1]
      modifies file`fileSize, file`position, dev, sectorBuffer
      ensures copySize > 0 && old(file.fileSize) % SECTOR_SIZE + copySize <= SECTOR_SIZE && done + copySize <= |buffer|
      ensures file.fileSize == old(file.fileSize) + copySize && file.position == old(file.position) + copySize
      ensures |Disk()| == |d0| && Extended(Lay(), d0, size0, ch0, buffer[..done + copySize], Disk(), ch)
    {
      hide FreeList, FileBytes, Sectors, EndsIn;
      ghost var d := Disk();
      var sector, offsetInSector := LocateEnd(file, cluster, ch);
      if offsetInSector > 0 || |buffer| - done < SECTOR_SIZE {
        var st := BlockRead(dev, sector, sectorBuffer);
      }
      copySize := SECTOR_SIZE - offsetInSector;
      if copySize > |buffer| - done {
        copySize := |buffer| - done;
      }
      ghost var chunk := buffer[done..done + copySize];
      MemCpy(sectorBuffer, offsetInSector, buffer[done..done + copySize]);
      FillSector(Lay(), d0, size0, ch0, buffer[..done], d, ch, chunk, sectorBuffer[..]);
      TakeMore(buffer, done, copySize);
      var _ := BlockWrite(dev, sector, sectorBuffer);
      file.fileSize := file.fileSize + copySize;
      file.position := file.position + copySize;
    }

    /**
     Appends `buffer` at the end of the file, sector by sector. The allocator is only
     sound while clusters of the device are free, so that is asked of the caller; the
     driver's error and full returns are then never taken.
     */
    method Write(file: SmartFile, buffer: seq<byte>, ghost ch: seq<nat>)
      returns (status: FsStatus, written: nat, ghost ch': seq<nat>)
      requires Mounted()
      requires FileOk(Lay(), Disk(), file.firstCluster, file.fileSize, ch)
      requires HasRoom(Lay(), Disk(), file.fileSize, ch, |buffer|)
      modifies file, dev, fatCache
      ensures status == FsOk && written == |buffer| && |ch'| > 0
      ensures Appended(Lay(), old(Disk()), old(file.fileSize), ch, buffer, Disk(), ch')
      ensures file.Value() == old(file.Value()).(
                firstCluster := ch'[0],
                currentCluster := if old(file.firstCluster) == 0 then ch'[0] else old(file.currentCluster),
                fileSize := old(file.fileSize) + |buffer|,
                position := old(file.position) + |buffer|)
    {
      hide FreeList, FileBytes, Sectors, HasRoom, Holds, ClustersAfter, Grown, SameOutside;
      hide EndsIn, ClusterFull, Fills, FatStore, Link;
      var size := |buffer|;
      var totalWritten := 0;
      var sectorBuffer := new byte[SECTOR_SIZE];
      ghost var L, d0, size0 := Lay(), Disk(), file.fileSize;
      ch' := ch;
      if file.firstCluster == 0 {
        StartDue(L, d0, size);
        StartChain(L, d0, FreeList(Table(L, d0))[0]);
        file.firstCluster := AllocateCluster();
        file.currentCluster := file.firstCluster;
        ch' := [file.firstCluster];
      } else {
        ExtendedByNothing(L, d0, size0, ch);
      }
      var cluster;
      cluster, ch' := SeekEnd(file, d0, ch, size, ch');
      if size == 0 {
        NothingToWrite(L, size0, |ch'|);
      }
      while totalWritten < size
        invariant totalWritten <= size && |Disk()| == |d0| && |ch'| > 0
        invariant Extended(L, d0, size0, ch, buffer[..totalWritten], Disk(), ch')
        invariant file.firstCluster == ch'[0] && cluster == ch'[|ch'| - 1]
        invariant file.fileSize == size0 + totalWritten
        invariant file.position == old(file.position) + totalWritten
        invariant totalWritten < size ==> EndsIn(L.spc, |ch'|, file.fileSize)
        invariant totalWritten == size ==> |ch'| == ClustersAfter(L, size0, size)
        invariant file.currentCluster == if old(file.firstCluster) == 0 then ch'[0] else old(file.currentCluster)
        invariant file.isDir == old(file.isDir) && file.filename == old(file.filename)
      {
        ghost var cur := file.fileSize;
        var copySize := WriteChunk(file, cluster, buffer, totalWritten, sectorBuffer, d0, size0, ch, ch');
        AfterChunk(L, |ch'|, cur, copySize);
        if totalWritten + copySize == size {
          DoneWriting(L, size0, size, totalWritten, |ch'|);
        }
        totalWritten := totalWritten + copySize;
        if ClusterFull(spc, file.fileSize) && totalWritten < size {
          DueInWrite(L, d0, size0, ch, size, buffer[..totalWritten], Disk(), ch');
          GrowChain(L, d0, size0, ch, buffer[..totalWritten], Disk(), ch', FreeList(Table(L, Disk()))[0]);
          var newCluster := LinkNewCluster(cluster);
          cluster := newCluster;
          ch' := ch' + [newCluster];
        }
      }
      return FsOk, totalWritten, ch';
    }

    // ----- reading -----

    /** Follows `steps` links from the first cluster of a chain. */
    method Walk(first: nat, steps: nat, ghost ch: seq<nat>) returns (cluster: nat)
      requires Mounted() && IsChain(Table(Lay(), Disk()), ch) && first == ch[0] && steps < |ch|
      modifies fatCache
      ensures cluster == ch[steps]
    {
      hide IsChain, TableOf, SectorOf;
      cluster := first;
      ghost var t := Table(Lay(), Disk());
      for i := 0 to steps
        invariant cluster == ch[i] && Table(Lay(), Disk()) == t
      {
        FollowsChain(t, ch, i);
        cluster := GetNextCluster(cluster);
        if cluster == 0xFFFF {
          break;
        }
      }
    }

    /** Walks to the cluster and the sector within it that hold the handle's position. */
    method SeekPosition(file: SmartFile, ghost ch: seq<nat>) returns (cluster: nat, sectorOffset: nat)
      requires Mounted() && FileOk(Lay(), Disk(), file.firstCluster, file.fileSize, ch)
      requires file.position < file.fileSize
      modifies fatCache
      ensures At(spc, ch, file.position / SECTOR_SIZE, cluster, sectorOffset) && cluster != 0xFFFF
    {
      hide At, IsChain, Sectors, SectorOf, TableOf, InVolume, Holds, ClusterIndex, SectorIndex;
      PositionAt(Lay(), ch, file.fileSize, file.position);
      var clusterOffset := ClusterIndex(spc, file.position);
      sectorOffset := SectorIndex(spc, file.position);
      FollowsChain(Table(Lay(), Disk()), ch, clusterOffset);
      cluster := Walk(file.firstCluster, clusterOffset, ch);
    }

    method NextSector(cluster: nat, sectorOffset: nat, ghost n: nat, ghost ch: seq<nat>)
      returns (cluster': nat, sectorOffset': nat)
      requires Mounted() && InVolume(Lay(), ch) && IsChain(Table(Lay(), Disk()), ch)
      requires At(spc, ch, n, cluster, sectorOffset)
      modifies fatCache
      ensures n + 1 < |Sectors(Lay(), ch)| ==> At(spc, ch, n + 1, cluster', sectorOffset') && cluster' != 0xFFFF
    {
      hide At, IsChain, Sectors, SectorOf, TableOf, InVolume, ClusterBytes;
      NextAt(Lay(), Table(Lay(), Disk()), ch, n, cluster, sectorOffset);
      cluster', sectorOffset' := cluster, sectorOffset + 1;
      if sectorOffset' >= spc {
        sectorOffset' := 0;
        cluster' := GetNextCluster(cluster);
      }
    }

    /** Copies the part of the current sector that is wanted and advances the position. */
    method ReadChunk(file: SmartFile, cluster: nat, sectorOffset: nat, sectorBuffer: array<byte>,
                     buffer: array<byte>, done: nat, wanted: nat, ghost secs: seq<nat>)
      returns (copySize: nat)
      requires Mounted() && sectorBuffer.Length == SECTOR_SIZE && sectorBuffer != buffer
      requires done < wanted <= buffer.Length && cluster >= 2
      requires file.position / SECTOR_SIZE < |secs|
      requires secs[file.position / SECTOR_SIZE] == SectorOf(Lay(), cluster, sectorOffset) < dev.Length
      modifies file`position, sectorBuffer, buffer
      ensures 0 < copySize <= wanted - done && file.position == old(file.position) + copySize
      ensures done + copySize < wanted ==> file.position % SECTOR_SIZE == 0
      ensures old(file.position) % SECTOR_SIZE + copySize <= SECTOR_SIZE
      ensures forall i :: 0 <= i < buffer.Length ==>
        buffer[i] == if done <= i < done + copySize then FileByte(Disk(), secs, old(file.position) + i - done)
                     else old(buffer[i])
    {
      var sector := dataStart + (cluster - 2) * spc + sectorOffset;
      var _ := BlockRead(dev, sector, sectorBuffer);
      var from := file.position % SECTOR_SIZE;
      copySize := SECTOR_SIZE - from;
      if copySize > wanted - done {
        copySize := wanted - done;
      }
      ghost var was := buffer[..];
      MemCpy(buffer, done, sectorBuffer[from..from + copySize]);
      ChunkBytes(Disk(), secs, file.position, sectorBuffer[..], was, buffer[..], done, copySize);
      assert forall i :: 0 <= i < buffer.Length ==> buffer[i] == buffer[..][i];
      file.position := file.position + copySize;
    }

    /**
     Copies up to `size` bytes from the handle's position into `buffer` and advances
     the position. The chain lies on the device, so the driver's error return is not
     taken.
     */
    method Read(file: SmartFile, buffer: array<byte>, size: nat, ghost ch: seq<nat>)
      returns (status: FsStatus, bytesRead: nat)
      requires Mounted() && size <= buffer.Length && buffer != fatCache
      requires FileOk(Lay(), Disk(), file.firstCluster, file.fileSize, ch)
      modifies file`position, buffer, fatCache
      ensures status == FsOk
      ensures bytesRead == Available(old(file.position), file.fileSize, size)
      ensures file.position == old(file.position) + bytesRead
      ensures bytesRead > 0 ==>
        buffer[..bytesRead] == FileBytes(Disk(), Sectors(Lay(), ch), file.fileSize)[old(file.position)..file.position]
      ensures buffer[bytesRead..] == old(buffer[bytesRead..])
    {
      hide FreeList, Sectors, SectorOf, ClusterBytes, IsChain, At, TableOf, FileByte;
      if file.position >= file.fileSize {
        return FsOk, 0;
      }
      var remaining := file.fileSize - file.position;
      var wanted := if size > remaining then remaining else size;
      var totalRead := 0;
      var sectorBuffer := new byte[SECTOR_SIZE];
      ghost var secs, pos0 := Sectors(Lay(), ch), file.position;
      SectorsOnDevice(Lay(), dev.Length, ch);
      var cluster: nat, sectorOffset: nat := SeekPosition(file, ch);
      while totalRead < wanted && cluster != 0xFFFF
        invariant totalRead <= wanted && file.position == pos0 + totalRead
        invariant totalRead < wanted ==>
          At(spc, ch, file.position / SECTOR_SIZE, cluster, sectorOffset) && cluster != 0xFFFF
        invariant forall i :: 0 <= i < buffer.Length ==>
          buffer[i] == if i < totalRead then FileByte(Disk(), secs, pos0 + i) else old(buffer[i])
      {
        ghost var n := file.position / SECTOR_SIZE;
        AtSector(Lay(), ch, n, cluster, sectorOffset);
        var copySize := ReadChunk(file, cluster, sectorOffset, sectorBuffer, buffer, totalRead, wanted, secs);
        totalRead := totalRead + copySize;
        cluster, sectorOffset := NextSector(cluster, sectorOffset, n, ch);
      }
      return FsOk, totalRead;
    }
  }

  /** `cluster` and `sectorOffset` are where file sector `n` lies. */
  ghost predicate At(spc: nat, ch: seq<nat>, n: nat, cluster: nat, sectorOffset: nat) {
    spc >= 1 && n / spc < |ch| && cluster == ch[n / spc] && sectorOffset == n % spc
  }

  lemma FollowsChain(t: FatTable, ch: seq<nat>, i: nat)
    requires IsChain(t, ch) && |t| == FAT_ENTRIES && i < |ch|
    ensures ch[i] < FAT_ENTRIES
    ensures i + 1 < |ch| ==> t[ch[i]] == ch[i + 1] < FAT_ENTRIES
  {
  }

  /** The code's cluster and sector offsets of a position inside the file. */
  lemma PositionAt(L: Layout, ch: seq<nat>, size: nat, pos: nat)
    requires L.spc >= 1 && Holds(L, ch, size) && pos < size
    ensures ClusterIndex(L.spc, pos) < |ch|
    ensures At(L.spc, ch, pos / SECTOR_SIZE, ch[ClusterIndex(L.spc, pos)], SectorIndex(L.spc, pos))
  {
    hide Sectors;
    PositionSplit(L, pos);
    SectorsAt(L, ch, pos / SECTOR_SIZE);
  }

  /** Where the next file sector lies: further on in the cluster, or at the start of the one it links to. */
  lemma NextAt(L: Layout, t: FatTable, ch: seq<nat>, n: nat, cluster: nat, sectorOffset: nat)
    requires At(L.spc, ch, n, cluster, sectorOffset) && IsChain(t, ch) && |t| == FAT_ENTRIES
    ensures cluster < FAT_ENTRIES
    ensures n + 1 < |Sectors(L, ch)| ==>
      if sectorOffset + 1 >= L.spc then t[cluster] < END_MIN && At(L.spc, ch, n + 1, t[cluster], 0)
      else At(L.spc, ch, n + 1, cluster, sectorOffset + 1)
  {
    hide Sectors;
    DivNext(n, L.spc);
    SectorsAt(L, ch, n + 1);
    var q := n / L.spc;
    assert q + 1 < |ch| ==> t[ch[q]] == ch[q + 1] < FAT_ENTRIES;
  }

  /** Bytes copied out of the sector that holds position `pos` are the file's bytes from there on. */
  lemma ChunkBytes(d: Disk, secs: seq<nat>, pos: nat, sector: Sector, was: seq<byte>, now: seq<byte>, done: nat, n: nat)
    requires pos / SECTOR_SIZE < |secs| && secs[pos / SECTOR_SIZE] < |d| && d[secs[pos / SECTOR_SIZE]] == sector
    requires pos % SECTOR_SIZE + n <= SECTOR_SIZE && done + n <= |was|
    requires now == Overlay(was, done, sector[pos % SECTOR_SIZE..pos % SECTOR_SIZE + n])
    ensures forall i :: 0 <= i < |was| ==>
      now[i] == if done <= i < done + n then FileByte(d, secs, pos + i - done) else was[i]
  {
    forall i | done <= i < done + n ensures now[i] == FileByte(d, secs, pos + i - done) {
      SameSector(pos, i - done);
    }
  }

  lemma SameSector(pos: nat, k: nat)
    requires pos % SECTOR_SIZE + k < SECTOR_SIZE
    ensures (pos + k) / SECTOR_SIZE == pos / SECTOR_SIZE && (pos + k) % SECTOR_SIZE == pos % SECTOR_SIZE + k
  {
  }

  lemma AtSector(L: Layout, ch: seq<nat>, n: nat, cluster: nat, sectorOffset: nat)
    requires At(L.spc, ch, n, cluster, sectorOffset) && forall i :: 0 <= i < |ch| ==> ch[i] >= 2
    ensures cluster >= 2 && n < |Sectors(L, ch)|
    ensures Sectors(L, ch)[n] == SectorOf(L, cluster, sectorOffset)
  {
    hide Sectors, SectorOf;
    SectorsAt(L, ch, n);
  }

  /** How many of `size` bytes are left at position `pos`. */
  function Available(pos: nat, fileSize: nat, size: nat): nat {
    if pos >= fileSize then 0 else if size > fileSize - pos then fileSize - pos else size
  }
}
