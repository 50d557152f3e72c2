/** The steps of an append: marking, linking and filling, each a lemma about device contents. */
module Append {
  import opened Arithmetic
  import opened Bytes
  import opened Fat12
  import opened Volume

  /** A table store reaches the table's sector and, as its mirror, the sector after it. */
  function FatStore(L: Layout, d: Disk, c: nat, v: nat): (d': Disk)
    requires L.fatStart + 1 < |d| && c < FAT_ENTRIES
    ensures |d'| == |d|
  {
    MirroredStore(d, L.fatStart, c, v)
  }

  lemma FatStoreTable(L: Layout, d: Disk, c: nat, v: nat)
    requires LayoutOk(L, |d|) && c < FAT_ENTRIES && v < 4096
    ensures Table(L, FatStore(L, d, c, v)) == Table(L, d)[c := v]
    ensures forall s :: 0 <= s < |d| && s != L.fatStart && s != L.fatStart + 1 ==> FatStore(L, d, c, v)[s] == d[s]
  {
    hide StoreEntry, TableOf;
    StoreUpdatesOneEntry(d[L.fatStart], c, v);
  }

  /** The disk after marking `c` as a chain end and linking it behind `last`. */
  function Link(L: Layout, d: Disk, last: nat, c: nat): (d': Disk)
    requires L.fatStart + 1 < |d| && c < FAT_ENTRIES && last < FAT_ENTRIES
    ensures |d'| == |d|
  {
    FatStore(L, FatStore(L, d, c, END_OF_CHAIN), last, c)
  }

  /** The first cluster of an empty file. */
  lemma StartChain(L: Layout, d: Disk, c: nat)
    requires LayoutOk(L, |d|)
    requires |FreeList(Table(L, d))| > 0 && c == FreeList(Table(L, d))[0] <= L.maxCluster
    ensures Extended(L, d, 0, [], [], FatStore(L, d, c, END_OF_CHAIN), [c])
  {
    hide FreeList, FileBytes;
    FatStoreTable(L, d, c, END_OF_CHAIN);
    GrownFirst(Table(L, d), c);
    SectorsSnoc(L, [], c);
    assert [] + [c] == [c];
  }

  /** One more cluster for a file that fills its chain. */
  lemma GrowChain(L: Layout, d0: Disk, size: nat, ch0: seq<nat>, data: seq<byte>, d: Disk, ch: seq<nat>, c: nat)
    requires LayoutOk(L, |d0|) && |d| == |d0| && InVolume(L, ch0)
    requires Extended(L, d0, size, ch0, data, d, ch)
    requires size + |data| == |Sectors(L, ch)| * SECTOR_SIZE
    requires |FreeList(Table(L, d))| > 0 && c == FreeList(Table(L, d))[0] <= L.maxCluster
    ensures Extended(L, d0, size, ch0, data, Link(L, d, ch[|ch| - 1], c), ch + [c])
  {
    hide FreeList, FileBytes, Sectors;
    var last := ch[|ch| - 1];
    var d1 := FatStore(L, d, c, END_OF_CHAIN);
    var d2 := Link(L, d, last, c);
    var secs := Sectors(L, ch);
    FatStoreTable(L, d, c, END_OF_CHAIN);
    FatStoreTable(L, d1, last, c);
    GrownMore(Table(L, d0), ch0, Table(L, d), ch, c);
    SectorsSnoc(L, ch, c);
    SectorsOnDevice(L, |d|, ch);
    assert FileBytes(d2, secs + ClusterSectors(L, c), size + |data|) == FileBytes(d, secs, size + |data|) by {
      FileBytesLonger(d2, secs, ClusterSectors(L, c), size + |data|);
      FileBytesFrame(d, d2, secs, size + |data|);
    }
    SameOutsideMore(L, d0, d, d2, secs, ClusterSectors(L, c));
  }

  lemma SameOutsideMore(L: Layout, d0: Disk, d: Disk, d': Disk, secs: seq<nat>, more: seq<nat>)
    requires SameOutside(L, d0, d, secs) && |d'| == |d|
    requires forall s :: 0 <= s < |d| && s != L.fatStart && s != L.fatStart + 1 && s !in more ==> d'[s] == d[s]
    ensures SameOutside(L, d0, d', secs + more)
  {
  }

  /** One chunk, written into the sector where the file ends. */
  lemma FillSector(L: Layout, d0: Disk, size: nat, ch0: seq<nat>, data: seq<byte>, d: Disk, ch: seq<nat>,
                   chunk: seq<byte>, sector: Sector)
    requires LayoutOk(L, |d0|) && |d| == |d0| && InVolume(L, ch0)
    requires Extended(L, d0, size, ch0, data, d, ch)
    requires (size + |data|) / SECTOR_SIZE < |Sectors(L, ch)|
    requires Sectors(L, ch)[(size + |data|) / SECTOR_SIZE] < |d|
    requires (size + |data|) % SECTOR_SIZE + |chunk| <= SECTOR_SIZE
    requires forall i :: 0 <= i < (size + |data|) % SECTOR_SIZE
               ==> sector[i] == d[Sectors(L, ch)[(size + |data|) / SECTOR_SIZE]][i]
    requires forall i :: 0 <= i < |chunk| ==> sector[(size + |data|) % SECTOR_SIZE + i] == chunk[i]
    ensures Extended(L, d0, size, ch0, data + chunk,
                     d[Sectors(L, ch)[(size + |data|) / SECTOR_SIZE] := sector], ch)
  {
    hide FreeList, FileBytes, Sectors;
    var secs := Sectors(L, ch);
    var cur := size + |data|;
    var d' := d[secs[cur / SECTOR_SIZE] := sector];
    ChainAcyclic(Table(L, d), ch);
    SectorsOnDevice(L, |d|, ch);
    SectorsDistinct(L, ch);
    AppendInSector(d, secs, cur, chunk, sector);
    var whole := FileBytes(d0, Sectors(L, ch0), size);
    assert whole + (data + chunk) == (whole + data) + chunk;
    assert d'[L.fatStart] == d[L.fatStart];
    assert SameOutside(L, d0, d', secs);
  }

  // ----- cluster arithmetic -----

  /** Which cluster of a file a position lies in. */
  function ClusterIndex(spc: nat, pos: nat): nat
    requires spc >= 1
  {
    pos / (spc * SECTOR_SIZE)
  }

  /** Which sector of its cluster a position lies in. */
  function SectorIndex(spc: nat, pos: nat): nat
    requires spc >= 1
  {
    pos % (spc * SECTOR_SIZE) / SECTOR_SIZE
  }

  /** The file ends on a cluster boundary. */
  predicate ClusterFull(spc: nat, size: nat)
    requires spc >= 1
  {
    size % (spc * SECTOR_SIZE) == 0
  }

  /** With `k` clusters, the last one holds the end of a file of `size` bytes. */
  predicate EndsIn(spc: nat, k: nat, size: nat)
    requires spc >= 1
  {
    k == size / (spc * SECTOR_SIZE) + 1
  }

  predicate Fills(spc: nat, k: nat, size: nat) {
    size == k * spc * SECTOR_SIZE
  }

  /** Byte `p` of a file sits in file sector `p / 512`, as the code computes it from cluster and offset. */
  lemma PositionSplit(L: Layout, p: nat)
    requires L.spc >= 1
    ensures ClusterBytes(L) >= SECTOR_SIZE
    ensures p / ClusterBytes(L) == p / SECTOR_SIZE / L.spc
    ensures p % ClusterBytes(L) / SECTOR_SIZE == p / SECTOR_SIZE % L.spc
    ensures p % ClusterBytes(L) % SECTOR_SIZE == p % SECTOR_SIZE
  {
    var n, o := p / SECTOR_SIZE, p % SECTOR_SIZE;
    var q, s := n / L.spc, n % L.spc;
    assert n == q * L.spc + s;
    assert p == q * ClusterBytes(L) + (s * SECTOR_SIZE + o) by {
      assert (q * L.spc) * SECTOR_SIZE == q * (L.spc * SECTOR_SIZE);
    }
    DivOfSum(q, s * SECTOR_SIZE + o, ClusterBytes(L));
    DivOfSum(s, o, SECTOR_SIZE);
  }

  /** While bytes remain to be written and the file fills its clusters, one more is due. */
  lemma MoreIsDue(L: Layout, size: nat, done: nat, n: nat, k: nat)
    requires L.spc >= 1 && done < n
    requires Fills(L.spc, k, size + done)
    ensures k < ClustersAfter(L, size, n)
  {
    var b := ClusterBytes(L);
    var u := (size + n + b - 1) / b;
    assert size + done == k * b;
    assert size + n + b - 1 == u * b + (size + n + b - 1) % b;
    assert u <= k ==> u * b <= k * b;
  }

  /** With nothing to write, the chain that holds the end of the file has its final length. */
  lemma NothingToWrite(L: Layout, size: nat, k: nat)
    requires L.spc >= 1 && EndsIn(L.spc, k, size)
    ensures k == ClustersAfter(L, size, 0)
  {
    var b := ClusterBytes(L);
    var u, q := (size + b - 1) / b, size / b;
    assert size + b - 1 == u * b + (size + b - 1) % b;
    assert size == q * b + size % b;
    assert u > q + 1 ==> (q + 2) * b <= u * b && (q + 2) * b == q * b + 2 * b;
  }

  /**
   The last chunk of `n` bytes appended to a file of `size`, of which `done` were
   written before: the chain that held the end has the length the final size calls for.
   */
  lemma DoneWriting(L: Layout, size: nat, n: nat, done: nat, k: nat)
    requires L.spc >= 1 && done < n && EndsIn(L.spc, k, size + done)
    requires (size + done) % SECTOR_SIZE + (n - done) <= SECTOR_SIZE
    ensures k == ClustersAfter(L, size, n)
  {
    ChunkInCluster(L, k, size + done, n - done);
    RoundsTo(L, size, n, k);
    DivMono(size, size + done, ClusterBytes(L));
  }

  lemma RoundsTo(L: Layout, size: nat, n: nat, k: nat)
    requires L.spc >= 1 && k > 0
    requires (k - 1) * ClusterBytes(L) < size + n <= k * ClusterBytes(L)
    ensures (size + n + ClusterBytes(L) - 1) / ClusterBytes(L) == k
  {
    var b := ClusterBytes(L);
    var u := (size + n + b - 1) / b;
    assert size + n + b - 1 == u * b + (size + n + b - 1) % b;
    assert u > k ==> (k + 1) * b <= u * b && (k + 1) * b == k * b + b;
    assert u < k ==> u * b <= (k - 1) * b;
  }

  lemma ChunkInCluster(L: Layout, k: nat, cur: nat, n: nat)
    requires L.spc >= 1 && EndsIn(L.spc, k, cur)
    requires cur % SECTOR_SIZE + n <= SECTOR_SIZE && n > 0
    ensures (k - 1) * ClusterBytes(L) < cur + n <= k * ClusterBytes(L)
    ensures cur % ClusterBytes(L) + n <= ClusterBytes(L)
  {
    var b := ClusterBytes(L);
    PositionSplit(L, cur);
    assert cur == (k - 1) * b + cur % b;
    ChunkFits(cur % b, n, L.spc);
    assert k * b == (k - 1) * b + b;
  }

  lemma ChunkFits(r: nat, n: nat, spc: nat)
    requires r < spc * SECTOR_SIZE && r % SECTOR_SIZE + n <= SECTOR_SIZE
    ensures r + n <= spc * SECTOR_SIZE
  {
    assert r / SECTOR_SIZE < spc;
  }

  /** After a chunk: either the file fills its clusters, or the last one still holds its end. */
  lemma AfterChunk(L: Layout, k: nat, cur: nat, n: nat)
    requires L.spc >= 1 && EndsIn(L.spc, k, cur)
    requires cur % SECTOR_SIZE + n <= SECTOR_SIZE && n > 0
    ensures ClusterFull(L.spc, cur + n) ==> Fills(L.spc, k, cur + n) && EndsIn(L.spc, k + 1, cur + n)
    ensures !ClusterFull(L.spc, cur + n) ==> EndsIn(L.spc, k, cur + n)
  {
    var b := ClusterBytes(L);
    ChunkInCluster(L, k, cur, n);
    var r := cur % b;
    assert cur == (k - 1) * b + r;
    assert k * b == (k - 1) * b + b == k * L.spc * SECTOR_SIZE;
    if r + n < b {
      DivOfSum(k - 1, r + n, b);
    } else {
      DivOfSum(k, 0, b);
    }
  }

  /**
   Where the next chunk goes: the code's cluster-and-offset arithmetic names the file
   sector at the end of the file, when the last cluster of the chain holds that end.
   */
  lemma EndSector(L: Layout, total: nat, ch: seq<nat>, cur: nat)
    requires LayoutOk(L, total) && InVolume(L, ch)
    requires EndsIn(L.spc, |ch|, cur)
    ensures cur / SECTOR_SIZE < |Sectors(L, ch)|
    ensures Sectors(L, ch)[cur / SECTOR_SIZE]
         == SectorOf(L, ch[|ch| - 1], cur % ClusterBytes(L) / SECTOR_SIZE) < total
    ensures cur % ClusterBytes(L) % SECTOR_SIZE == cur % SECTOR_SIZE
  {
    PositionSplit(L, cur);
    SectorsAt(L, ch, cur / SECTOR_SIZE);
    SectorsOnDevice(L, total, ch);
  }

  // ----- room -----

  /** An append of nothing so far. */
  lemma ExtendedByNothing(L: Layout, d: Disk, size: nat, ch: seq<nat>)
    requires LayoutOk(L, |d|) && InVolume(L, ch) && |ch| > 0
    requires FileOk(L, d, ch[0], size, ch)
    ensures Extended(L, d, size, ch, [], d, ch)
    ensures |ch| <= size / ClusterBytes(L) + 1
  {
    GrownNone(Table(L, d), ch);
    ChainLengthBounds(L, d, ch[0], size, ch);
  }

  /** The cluster a grown chain would take next, when the room was checked up front. */
  lemma NextFree(L: Layout, d0: Disk, size: nat, ch0: seq<nat>, n: nat, data: seq<byte>, d: Disk, ch: seq<nat>)
    requires LayoutOk(L, |d0|) && |d| == |d0| && InVolume(L, ch0)
    requires HasRoom(L, d0, size, ch0, n)
    requires Extended(L, d0, size, ch0, data, d, ch)
    requires |ch| < ClustersAfter(L, size, n)
    ensures |FreeList(Table(L, d))| > 0 && FreeList(Table(L, d))[0] <= L.maxCluster
  {
    hide FreeList, FileBytes, Sectors;
    var free := FreeList(Table(L, d0));
    assert FreeList(Table(L, d)) == free[|ch| - |ch0|..];
  }

  /** An empty file may take its first cluster whenever it has room for anything. */
  lemma StartDue(L: Layout, d: Disk, n: nat)
    requires LayoutOk(L, |d|) && HasRoom(L, d, 0, [], n)
    ensures |FreeList(Table(L, d))| > 0 && FreeList(Table(L, d))[0] <= L.maxCluster
    ensures 0 / ClusterBytes(L) == 0
  {
    hide FreeList;
    DivOfSum(0, 0, ClusterBytes(L));
  }

  /** While seeking past the last cluster, the file fills its chain and a cluster is free. */
  lemma DueInSeek(L: Layout, d0: Disk, size: nat, ch0: seq<nat>, n: nat, d: Disk, ch: seq<nat>)
    requires LayoutOk(L, |d0|) && |d| == |d0| && InVolume(L, ch0)
    requires HasRoom(L, d0, size, ch0, n)
    requires Extended(L, d0, size, ch0, [], d, ch)
    requires |ch| <= size / ClusterBytes(L)
    ensures size == |Sectors(L, ch)| * SECTOR_SIZE
    ensures |FreeList(Table(L, d))| > 0 && FreeList(Table(L, d))[0] <= L.maxCluster
  {
    NextFree(L, d0, size, ch0, n, [], d, ch);
    HoldsInClusters(L, ch, size);
    SectorsLength(L, ch);
    SeekArithmetic(size, |ch|, L.spc);
  }

  lemma SeekArithmetic(size: nat, k: nat, spc: nat)
    requires spc >= 1 && k <= size / (spc * SECTOR_SIZE) && size <= k * (spc * SECTOR_SIZE)
    ensures size == (k * spc) * SECTOR_SIZE
  {
    var b := spc * SECTOR_SIZE;
    var q := size / b;
    assert size == q * b + size % b;
    assert k * b <= q * b;
    assert k * b == (k * spc) * SECTOR_SIZE;
  }

  /** When a chunk has filled the last cluster and bytes remain, a cluster is free for them. */
  lemma DueInWrite(L: Layout, d0: Disk, size: nat, ch0: seq<nat>, n: nat, data: seq<byte>, d: Disk, ch: seq<nat>)
    requires LayoutOk(L, |d0|) && |d| == |d0| && InVolume(L, ch0)
    requires HasRoom(L, d0, size, ch0, n)
    requires Extended(L, d0, size, ch0, data, d, ch)
    requires |data| < n && Fills(L.spc, |ch|, size + |data|)
    ensures size + |data| == |Sectors(L, ch)| * SECTOR_SIZE
    ensures |FreeList(Table(L, d))| > 0 && FreeList(Table(L, d))[0] <= L.maxCluster
  {
    hide FreeList, FileBytes, Sectors, HasRoom, ClustersAfter;
    MoreIsDue(L, size, |data|, n, |ch|);
    NextFree(L, d0, size, ch0, n, data, d, ch);
    SectorsLength(L, ch);
  }
}
