/** Formatting a device and reading the layout back at mount time. */
module Format {
  import opened Arithmetic
  import opened Bytes
  import opened Fat12
  import opened Volume
  import opened Append
  import opened Directory
  import opened FileSystem
  import opened FsRuns

  const ROOT_ENTRIES := 224

  // ----- the boot sector -----

  function U16(v: nat): nat { v % 0x1_0000 }

  /** Sectors of one table, in the code's 32-bit arithmetic and cut to 16 bits. */
  function SectorsPerFat(total: nat): (r: nat)
    ensures r < 0x1_0000
  {
    var clusters := U32(total + 0x1_0000_0000 - 15);
    U16((U32(clusters * 3) / 2 + 511) / 512 + 1)
  }

  /** The 36 bytes of the boot sector's parameter block, field after field. */
  function BootHeader(total: nat): (r: seq<byte>)
    ensures |r| == 36
  {
    var t16 := Le16(if total < 0x1_0000 then total else 0);
    var t32 := Le32(if total >= 0x1_0000 then total else 0);
    var spf := Le16(SectorsPerFat(total));
    [0xEB, 0x3C, 0x90, 83, 77, 65, 82, 84, 79, 83, 32,
     Le16(SECTOR_SIZE)[0], Le16(SECTOR_SIZE)[1], 1, Le16(1)[0], Le16(1)[1], 2,
     Le16(ROOT_ENTRIES)[0], Le16(ROOT_ENTRIES)[1], t16[0], t16[1], 0xF8, spf[0], spf[1],
     Le16(1)[0], Le16(1)[1], Le16(1)[0], Le16(1)[1], 0, 0, 0, 0, t32[0], t32[1], t32[2], t32[3]]
  }

  function BootSector(total: nat): Sector {
    BootHeader(total) + Fill(0, 474) + [0x55, 0xAA]
  }

  /** The first sector of the table: the media byte and the two reserved entries. */
  function FirstFatSector(): Sector {
    [0xF8, 0xFF, 0xFF] + Fill(0, 509)
  }

  function ZeroSector(): Sector { Fill(0, SECTOR_SIZE) }

  /** The layout that a boot sector describes. */
  function LayoutFrom(b: Sector, maxCluster: nat): Layout {
    var fatStart := FromLe16(b[14..16]);
    var rootStart := fatStart + (b[16] as nat) * FromLe16(b[22..24]);
    Layout(fatStart, rootStart, rootStart + (FromLe16(b[17..19]) * 32 + 511) / 512, b[13], maxCluster)
  }

  /** The layout that format has in mind. */
  function FormatLayout(total: nat, maxCluster: nat): Layout {
    var root := 1 + 2 * SectorsPerFat(total);
    Layout(1, root, root + ROOT_SECTORS, 1, maxCluster)
  }

  lemma HeaderBytes(total: nat)
    ensures var h := BootHeader(total);
            && h[11] == Le16(SECTOR_SIZE)[0] && h[12] == Le16(SECTOR_SIZE)[1] && h[13] == 1
            && h[14] == Le16(1)[0] && h[15] == Le16(1)[1] && h[16] == 2
            && h[17] == Le16(ROOT_ENTRIES)[0] && h[18] == Le16(ROOT_ENTRIES)[1]
            && h[22] == Le16(SectorsPerFat(total))[0] && h[23] == Le16(SectorsPerFat(total))[1]
  {
    hide SectorsPerFat, Le16, Le32;
  }

  lemma HeaderFields(total: nat)
    ensures var b := BootSector(total);
            && b[11..13] == Le16(SECTOR_SIZE) && b[13] == 1 && b[14..16] == Le16(1) && b[16] == 2
            && b[17..19] == Le16(ROOT_ENTRIES) && b[22..24] == Le16(SectorsPerFat(total))
  {
    hide SectorsPerFat, Le16, Le32, BootHeader;
    var b := BootSector(total);
    assert forall i :: 0 <= i < 36 ==> b[i] == BootHeader(total)[i];
    HeaderBytes(total);
    Field16(b, 11, SECTOR_SIZE);
    Field16(b, 14, 1);
    Field16(b, 17, ROOT_ENTRIES);
    Field16(b, 22, SectorsPerFat(total));
  }

  lemma Field16(b: Sector, i: nat, v: nat)
    requires i + 2 <= SECTOR_SIZE && b[i] == Le16(v)[0] && b[i + 1] == Le16(v)[1]
    ensures b[i..i + 2] == Le16(v)
  {
  }

  /** Mounting decodes the layout that was encoded. */
  lemma BootSectorDecodes(total: nat, maxCluster: nat)
    ensures FromLe16(BootSector(total)[11..13]) == SECTOR_SIZE
    ensures LayoutFrom(BootSector(total), maxCluster) == FormatLayout(total, maxCluster)
  {
    hide BootSector, SectorsPerFat;
    HeaderFields(total);
    Le16RoundTrip(SECTOR_SIZE);
    Le16RoundTrip(1);
    Le16RoundTrip(ROOT_ENTRIES);
    Le16RoundTrip(SectorsPerFat(total));
  }

  /** Up to this many sectors no intermediate result wraps around. */
  lemma TableSize(total: nat)
    requires 15 <= total <= 22_000_000
    ensures SectorsPerFat(total) == ((total - 15) * 3 / 2 + 511) / 512 + 1
  {
    var clusters := total - 15;
    assert U32(total + 0x1_0000_0000 - 15) == clusters;
    assert U32(clusters * 3) == clusters * 3;
  }

  /** Within 16 bits of table size, a table has room for every data cluster and the two reserved ones. */
  lemma TableCoversVolume(total: nat)
    requires 19 <= total <= 22_000_000
    ensures 2 <= SectorsPerFat(total)
    ensures FormatLayout(total, 0).dataStart <= total
    ensures (total - FormatLayout(total, 0).dataStart + 2) * 3 <= 2 * SectorsPerFat(total) * SECTOR_SIZE
  {
    hide SectorsPerFat;
    TableSize(total);
  }

  // ----- formatting -----

  /** What format leaves on the device: boot sector, table 1 with its header, zeroes up to the data region. */
  ghost predicate Formatted(d0: Disk, d: Disk) {
    var total := |d0|;
    var dataStart := FormatLayout(total, 0).dataStart;
    && |d| == total
    && dataStart <= total
    && d[0] == BootSector(total)
    && d[1] == (if SectorsPerFat(total) > 0 then FirstFatSector() else ZeroSector())
    && (forall s :: 2 <= s < dataStart ==> d[s] == ZeroSector())
    && (forall s :: dataStart <= s < total ==> d[s] == d0[s])
  }

  /** Where the first, the second, and whatever follows the second table starts. */
  function TableStart(fat: nat, sectorsPerFat: nat): nat {
    if fat == 0 then 1 else if fat == 1 then 1 + sectorsPerFat else 1 + 2 * sectorsPerFat
  }

  method FillBuffer(buffer: array<byte>, content: seq<byte>)
    requires buffer.Length == |content|
    modifies buffer
    ensures buffer[..] == content
  {
    MemCpy(buffer, 0, content);
    assert Overlay(old(buffer[..]), 0, content) == content;
  }

  /** Writes a run of sectors, the first with the buffer's content, the rest zeroed. */
  method WriteRun(dev: array<Sector>, start: nat, count: nat, buffer: array<byte>) returns (ok: bool)
    requires buffer.Length == SECTOR_SIZE
    modifies dev, buffer
    ensures ok <==> start + count <= dev.Length || count == 0
    ensures forall s :: 0 <= s < dev.Length && !(start <= s < start + count) ==> dev[s] == old(dev[s])
    ensures ok && count > 0 ==> dev[start] == old(buffer[..])
    ensures ok ==> forall s :: start < s < start + count ==> dev[s] == ZeroSector()
    ensures ok && count > 0 ==> buffer[..] == ZeroSector()
    ensures count == 0 ==> buffer[..] == old(buffer[..])
  {
    ghost var first: Sector := buffer[..];
    var i := 0;
    while i < count
      invariant i <= count && (i > 0 ==> start + i <= dev.Length)
      invariant forall s :: 0 <= s < dev.Length && !(start <= s < start + i) ==> dev[s] == old(dev[s])
      invariant i > 0 ==> dev[start] == first && buffer[..] == ZeroSector()
      invariant i == 0 ==> buffer[..] == first
      invariant forall s :: start < s < start + i ==> dev[s] == ZeroSector()
    {
      var st := BlockWrite(dev, start + i, buffer);
      if st != BlockOk {
        return false;
      }
      if i == 0 {
        FillBuffer(buffer, ZeroSector());
      }
      i := i + 1;
    }
    return true;
  }

  /** Builds the boot sector in the buffer. */
  method FillBoot(buffer: array<byte>, total: nat)
    requires buffer.Length == SECTOR_SIZE
    modifies buffer
    ensures buffer[..] == BootSector(total)
  {
    hide BootHeader, SectorsPerFat;
    FillBuffer(buffer, Fill(0, SECTOR_SIZE));
    MemCpy(buffer, 0, BootHeader(total));
    buffer[510] := 0x55;
    buffer[511] := 0xAA;
    BootBytes(buffer[..], total);
  }

  /** Writes both tables: the header goes into the first sector of the first one only. */
  method FormatTables(dev: array<Sector>, sectorsPerFat: nat, buffer: array<byte>) returns (ok: bool)
    requires buffer.Length == SECTOR_SIZE && buffer[..] == FirstFatSector()
    modifies dev, buffer
    ensures ok <==> 1 + 2 * sectorsPerFat <= dev.Length || sectorsPerFat == 0
    ensures dev.Length > 0 ==> dev[0] == old(dev[0])
    ensures ok && sectorsPerFat > 0 ==> dev[1] == FirstFatSector()
    ensures ok ==> forall s :: 2 <= s < 1 + 2 * sectorsPerFat ==> dev[s] == ZeroSector()
    ensures forall s :: 1 + 2 * sectorsPerFat <= s < dev.Length ==> dev[s] == old(dev[s])
  {
    for fat := 0 to 2
      invariant TableStart(fat, sectorsPerFat) <= dev.Length || sectorsPerFat == 0 || fat == 0
      invariant dev.Length > 0 ==> dev[0] == old(dev[0])
      invariant fat == 0 || sectorsPerFat == 0 ==> buffer[..] == FirstFatSector()
      invariant fat > 0 && sectorsPerFat > 0 ==> dev[1] == FirstFatSector() && buffer[..] == ZeroSector()
      invariant forall s :: 2 <= s < TableStart(fat, sectorsPerFat) ==> dev[s] == ZeroSector()
      invariant forall s :: TableStart(fat, sectorsPerFat) <= s < dev.Length ==> dev[s] == old(dev[s])
    {
      ok := WriteRun(dev, TableStart(fat, sectorsPerFat), sectorsPerFat, buffer);
      if !ok {
        return false;
      }
    }
    return true;
  }

  /** The tables and the root directory, after the boot sector has been written. */
  method FormatRegions(dev: array<Sector>, sectorsPerFat: nat, buffer: array<byte>) returns (ok: bool)
    requires buffer.Length == SECTOR_SIZE && dev.Length > 0
    modifies dev, buffer
    ensures ok <==> 1 + 2 * sectorsPerFat + ROOT_SECTORS <= dev.Length
    ensures dev[0] == old(dev[0])
    ensures ok ==> dev[1] == if sectorsPerFat > 0 then FirstFatSector() else ZeroSector()
    ensures ok ==> forall s :: 2 <= s < 1 + 2 * sectorsPerFat + ROOT_SECTORS ==> dev[s] == ZeroSector()
    ensures forall s :: 1 + 2 * sectorsPerFat + ROOT_SECTORS <= s < dev.Length ==> dev[s] == old(dev[s])
  {
    hide FirstFatSector, ZeroSector;
    FillBuffer(buffer, FirstFatSector());
    ok := FormatTables(dev, sectorsPerFat, buffer);
    if !ok {
      return false;
    }
    FillBuffer(buffer, ZeroSector());
    ok := WriteRun(dev, 1 + 2 * sectorsPerFat, (ROOT_ENTRIES * 32 + 511) / 512, buffer);
  }

  /**
   Formats a device. It succeeds exactly when the regions it computed fit; nothing
   beyond them is touched.
   */
  method Format(dev: array?<Sector>) returns (status: FsStatus)
    requires dev != null ==> dev.Length < 0x1_0000_0000
    modifies dev
    ensures dev == null ==> status == FsInvalid
    ensures dev != null ==> (status == FsOk <==> FormatLayout(dev.Length, 0).dataStart <= dev.Length)
    ensures dev != null && status != FsOk ==> status == FsError
    ensures dev != null && status == FsOk ==> Formatted(old(dev[..]), dev[..])
  {
    hide BootSector, SectorsPerFat, FirstFatSector, ZeroSector;
    if dev == null {
      return FsInvalid;
    }
    var total := dev.Length;
    var buffer := new byte[SECTOR_SIZE];
    FillBoot(buffer, total);
    var st := BlockWrite(dev, 0, buffer);
    if st != BlockOk {
      return FsError;
    }
    var ok := FormatRegions(dev, SectorsPerFat(total), buffer);
    status := if ok then FsOk else FsError;
  }

  lemma BootBytes(b: seq<byte>, total: nat)
    requires |b| == SECTOR_SIZE
    requires forall i :: 0 <= i < SECTOR_SIZE ==>
      b[i] == if i < 36 then BootHeader(total)[i] else if i == 510 then 0x55 else if i == 511 then 0xAA else 0
    ensures b == BootSector(total)
  {
    hide BootHeader;
  }

  /** On the sizes a device can have here, format succeeds exactly from 19 sectors on. */
  lemma FormatSucceedsIff(total: nat)
    requires total <= 22_000_000
    ensures FormatLayout(total, 0).dataStart <= total <==> total >= 19
  {
    hide SectorsPerFat;
    if total >= 15 {
      TableSize(total);
    }
  }

  // ----- mounting -----

  /** The last cluster that lies on the device, among those the table's first sector describes. */
  ghost function LastCluster(L: Layout, total: nat): nat {
    if L.spc == 0 || total < L.dataStart then 0
    else
      var n := (total - L.dataStart) / L.spc + 1;
      if n < FAT_ENTRIES then n else FAT_ENTRIES - 1
  }

  lemma LastClusterFits(L: Layout, total: nat)
    requires 1 <= L.spc < 256 && L.fatStart + 2 <= L.rootStart && L.rootStart + ROOT_SECTORS <= L.dataStart
    requires L.maxCluster == LastCluster(L, total)
    ensures LayoutOk(L, total) <==> L.dataStart + L.spc <= total
  {
    if L.dataStart <= total {
      ClustersThatFit(total - L.dataStart, L.spc, L.maxCluster);
    }
  }

  /** How many whole clusters of `m` sectors fit into `space`. */
  lemma ClustersThatFit(space: nat, m: nat, last: nat)
    requires m >= 1
    requires last == if space / m + 1 < FAT_ENTRIES then space / m + 1 else FAT_ENTRIES - 1
    ensures last >= 2 <==> m <= space
    ensures last >= 2 ==> (last - 2) * m + m <= space
  {
    var n := space / m;
    assert space == n * m + space % m;
    if n >= 1 {
      assert n * m == (n - 1) * m + m;
      assert (last - 2) * m <= (n - 1) * m;
    }
  }

  /** Takes over a device and reads the layout from its boot sector. */
  method Init(fs: Fs, dev: array?<Sector>) returns (status: FsStatus)
    requires fs.fatCache.Length == SECTOR_SIZE
    modifies fs
    ensures dev == null ==> status == FsInvalid
    ensures dev != null ==> fs.dev == dev
    ensures dev != null && dev.Length == 0 ==> status == FsError
    ensures dev != null && dev.Length > 0 ==>
      var bps := FromLe16(dev[0][11..13]);
      if bps == SECTOR_SIZE then status == FsOk && fs.Lay() == LayoutFrom(dev[0], fs.maxCluster)
                                 && fs.maxCluster == LastCluster(LayoutFrom(dev[0], 0), dev.Length)
      else status == if bps == 0 || bps == 0xFFFF then FsNotFound else FsError
    ensures status != FsOk ==> fs.Lay() == old(fs.Lay())
  {
    if dev == null {
      return FsInvalid;
    }
    fs.dev := dev;
    var buffer := new byte[SECTOR_SIZE];
    var st := BlockRead(dev, 0, buffer);
    if st != BlockOk {
      return FsError;
    }
    var bpb: Sector := buffer[..];
    var bytesPerSector := FromLe16(bpb[11..13]);
    if bytesPerSector != 512 {
      if bytesPerSector == 0 || bytesPerSector == 0xFFFF {
        return FsNotFound;
      }
      return FsError;
    }
    var numFats: nat := bpb[16];
    fs.spc := bpb[13];
    fs.fatStart := FromLe16(bpb[14..16]);
    fs.rootStart := fs.fatStart + numFats * FromLe16(bpb[22..24]);
    fs.dataStart := fs.rootStart + (FromLe16(bpb[17..19]) * 32 + 511) / 512;
    fs.maxCluster := LastCluster(LayoutFrom(bpb, 0), dev.Length);
    status := FsOk;
  }

  /**
   The layout of any boot sector, from its bytes: the tables start after the reserved
   sectors, the root directory after all tables, and the data after the fewest sectors
   that hold all root entries.
   */
  lemma LayoutFromBytes(b: Sector, maxCluster: nat)
    ensures var L := LayoutFrom(b, maxCluster);
            && L.spc == b[13] as nat && L.fatStart == b[14] as nat + 256 * b[15] as nat
            && L.rootStart == L.fatStart + b[16] as nat * (b[22] as nat + 256 * b[23] as nat)
            && var n, bytes := L.dataStart - L.rootStart, 32 * (b[17] as nat + 256 * b[18] as nat);
               bytes <= 512 * n < bytes + 512
  {
    LittleEndian(b[14..16]);
    LittleEndian(b[17..19]);
    LittleEndian(b[22..24]);
  }

  /** The rest of the parameter block: the size in the field that can hold it, the media byte, the signature. */
  lemma BootSectorNamesSize(total: nat)
    requires total < 0x1_0000_0000
    ensures var b := BootSector(total);
            && FromLe16(b[19..21]) + FromLe32(b[32..36]) == total
            && (FromLe16(b[19..21]) == 0 || FromLe32(b[32..36]) == 0)
            && b[21] == FirstFatSector()[0] == 0xF8 && b[510] == 0x55 && b[511] == 0xAA
  {
    hide SectorsPerFat, Le16, Le32;
    var b, t16, t32 := BootSector(total), if total < 0x1_0000 then total else 0, if total >= 0x1_0000 then total else 0;
    assert forall i :: 0 <= i < 36 ==> b[i] == BootHeader(total)[i];
    assert b[19..21] == Le16(t16) && b[32..36] == Le32(t32);
    Le16RoundTrip(t16);
    Le32RoundTrip(t32);
  }

  // ----- a fresh volume -----

  /** An entry of a zeroed sector, or of the first one past its header, reads as free. */
  lemma ZeroEntry(s: Sector, c: nat)
    requires OneSector(c)
    requires s[EntryOffset(c)] == 0 && s[EntryOffset(c) + 1] == 0
    ensures EntryAt(s, c) == 0
  {
  }

  /** Every entry that the first table has room for, whatever its size, is free. */
  lemma FreshEntry(d0: Disk, d: Disk, c: nat)
    requires Formatted(d0, d) && c >= 2 && OneSector(c) && EntrySector(c) < SectorsPerFat(|d|)
    ensures EntryOn(d, 1, c) == 0
  {
    hide BootSector, SectorsPerFat, EntryAt;
    assert EntrySector(c) == 0 ==> EntryOffset(c) >= 3;
    ZeroEntry(d[1 + EntrySector(c)], c);
  }

  /** A freshly formatted device: a free table, an empty directory, and every file invariant. */
  lemma FreshVolume(d0: Disk, d: Disk, L: Layout)
    requires |d| <= 22_000_000 && Formatted(d0, d)
    requires L == FormatLayout(|d|, L.maxCluster) && LayoutOk(L, |d|)
    ensures Inv(L, State(d, map[], map[]))
    ensures forall c :: 2 <= c < FAT_ENTRIES ==> Table(L, d)[c] == 0
    ensures forall c :: c >= 2 && OneSector(c) && EntrySector(c) < SectorsPerFat(|d|) ==> EntryOn(d, 1, c) == 0
    ensures forall k :: 0 <= k < DIR_SLOTS ==> SlotOf(L, State(d, map[], map[]), k) == Unused
  {
    hide BootSector, SectorsPerFat;
    forall c | c >= 2 && OneSector(c) && EntrySector(c) < SectorsPerFat(|d|) ensures EntryOn(d, 1, c) == 0 {
      FreshEntry(d0, d, c);
    }
  }

  /** On a table without used entries the free list counts up. */
  lemma {:induction false} AllFree(t: FatTable, c: nat)
    requires c <= |t| && forall x :: c <= x < |t| ==> t[x] == 0
    ensures |FreeFrom(t, c)| == |t| - c && forall i :: 0 <= i < |t| - c ==> FreeFrom(t, c)[i] == c + i
    decreases |t| - c
  {
    if c < |t| {
      AllFree(t, c + 1);
    }
  }

  /**
   The first allocation on a formatted device of any size stores its end mark and, with
   the second write, makes entry 342 of the same table, which was free, an end mark too.
   */
  lemma MirrorOverwrites(d0: Disk, d: Disk, L: Layout)
    requires |d| <= 22_000_000 && Formatted(d0, d)
    requires L == FormatLayout(|d|, L.maxCluster) && LayoutOk(L, |d|)
    ensures |FreeList(Table(L, d))| > 0 && FreeList(Table(L, d))[0] == 2
    ensures EntrySector(342) < SectorsPerFat(|d|) && EntryOn(d, 1, 342) == 0
    ensures EntryOn(FatStore(L, d, 2, 0xFFF), 1, 342) == EntryOn(FatStore(L, d, 2, 0xFFF), 1, 2) == 0xFFF
  {
    hide BootSector, SectorsPerFat;
    FreshVolume(d0, d, L);
    AllFree(Table(L, d), 2);
    FormatSucceedsIff(|d|);
    TableCoversVolume(|d|);
    FreshEntry(d0, d, 342);
    assert d[1] == FirstFatSector();
    var d' := FatStore(L, d, 2, END_OF_CHAIN);
    assert d'[2] == StoreEntry(d[1], 2, END_OF_CHAIN);
    assert d'[2][1] == 0xFF && d'[2][2] == 0xFF;
  }

  /** The start-up path for an unformatted device: format, then mount what was formatted. */
  method FormatThenInit(fs: Fs, dev: array<Sector>) returns (status: FsStatus)
    requires fs.fatCache.Length == SECTOR_SIZE && 20 <= dev.Length <= 22_000_000
    modifies fs, dev
    ensures status == FsOk && fs.dev == dev && fs.Mounted()
    ensures fs.Lay() == FormatLayout(dev.Length, fs.maxCluster)
    ensures fs.maxCluster == LastCluster(FormatLayout(dev.Length, 0), dev.Length)
    ensures Inv(fs.Lay(), State(fs.Disk(), map[], map[]))
    ensures forall c :: 2 <= c < FAT_ENTRIES ==> Table(fs.Lay(), fs.Disk())[c] == 0
    ensures forall k :: 0 <= k < DIR_SLOTS ==> SlotOf(fs.Lay(), State(fs.Disk(), map[], map[]), k) == Unused
  {
    hide BootSector, SectorsPerFat, Inv, SectorOf, SlotOf, TableOf;
    ghost var d0 := dev[..];
    status := Format(dev);
    EnoughSectors(dev.Length);
    BootSectorDecodes(dev.Length, 0);
    status := Init(fs, dev);
    BootSectorDecodes(dev.Length, fs.maxCluster);
    LastClusterFits(fs.Lay(), dev.Length);
    FreshVolume(d0, dev[..], fs.Lay());
  }

  lemma EnoughSectors(total: nat)
    requires 20 <= total <= 22_000_000
    ensures SectorsPerFat(total) >= 2 && FormatLayout(total, 0).dataStart + 1 <= total
  {
    hide SectorsPerFat;
    TableSize(total);
  }
}
