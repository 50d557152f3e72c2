/**
 Where a file's bytes live: the volume layout, the sectors of a cluster chain and
 the bytes they spell out.
 */
module Volume {
  import opened Arithmetic
  import opened Bytes
  import opened Fat12

  const ROOT_SECTORS := 14

  /** The layout globals, and the last cluster that lies on the device. */
  datatype Layout = Layout(fatStart: nat, rootStart: nat, dataStart: nat, spc: nat, maxCluster: nat)

  /**
   Regions in order and on the device. Two sectors are set aside at `fatStart`:
   every table write goes to the sector and to the one after it.
   */
  predicate LayoutOk(L: Layout, total: nat) {
    && 1 <= L.spc < 256
    && L.fatStart + 2 <= L.rootStart
    && L.rootStart + ROOT_SECTORS <= L.dataStart < total
    && 2 <= L.maxCluster < FAT_ENTRIES
    && SectorOf(L, L.maxCluster, L.spc) <= total
  }

  function Table(L: Layout, d: Disk): (t: FatTable)
    requires L.fatStart < |d|
    ensures |t| == FAT_ENTRIES
  {
    TableOf(d[L.fatStart])
  }

  function ClusterBytes(L: Layout): nat { L.spc * SECTOR_SIZE }

  // ----- the sectors of a chain -----

  /** Sector `s` of cluster `c`; clusters 0 and 1 have none. */
  function SectorOf(L: Layout, c: nat, s: nat): nat {
    if c < 2 then 0 else L.dataStart + (c - 2) * L.spc + s
  }

  /** Cluster 2 starts the data region, and clusters and their sectors follow one another. */
  lemma ClusterPlaces(L: Layout, c: nat, s: nat)
    requires c >= 2
    ensures SectorOf(L, 2, 0) == L.dataStart
    ensures SectorOf(L, c, s + 1) == SectorOf(L, c, s) + 1 && SectorOf(L, c + 1, s) == SectorOf(L, c, s) + L.spc
  {
  }

  function ClusterSectors(L: Layout, c: nat): (r: seq<nat>)
    ensures |r| == L.spc
    ensures forall i :: 0 <= i < L.spc ==> r[i] == SectorOf(L, c, i)
  {
    seq(L.spc, i requires 0 <= i => SectorOf(L, c, i))
  }

  /** All data sectors of a chain, in file order. */
  function Sectors(L: Layout, ch: seq<nat>): (r: seq<nat>) {
    if ch == [] then [] else Sectors(L, ch[..|ch| - 1]) + ClusterSectors(L, ch[|ch| - 1])
  }

  ghost predicate InVolume(L: Layout, ch: seq<nat>) {
    forall i :: 0 <= i < |ch| ==> 2 <= ch[i] <= L.maxCluster
  }

  lemma SectorsSnoc(L: Layout, ch: seq<nat>, c: nat)
    ensures Sectors(L, ch + [c]) == Sectors(L, ch) + ClusterSectors(L, c)
  {
    assert (ch + [c])[..|ch|] == ch;
  }

  lemma {:induction false} SectorsConcat(L: Layout, ch: seq<nat>, more: seq<nat>)
    ensures Sectors(L, ch + more) == Sectors(L, ch) + Sectors(L, more)
  {
    if more == [] {
      assert ch + more == ch;
    } else {
      var m, c := more[..|more| - 1], more[|more| - 1];
      SectorsConcat(L, ch, m);
      assert ch + more == (ch + m) + [c];
      SectorsSnoc(L, ch + m, c);
    }
  }

  /** Every sector of a file is some sector of some cluster of its chain. */
  lemma {:induction false} LocateSector(L: Layout, ch: seq<nat>, n: nat) returns (i: nat, s: nat)
    requires n < |Sectors(L, ch)|
    ensures i < |ch| && s < L.spc && n == i * L.spc + s
    ensures Sectors(L, ch)[n] == SectorOf(L, ch[i], s)
    decreases |ch|
  {
    var m := |ch| - 1;
    SectorsLength(L, ch[..m]);
    if n < |Sectors(L, ch[..m])| {
      i, s := LocateSector(L, ch[..m], n);
    } else {
      i, s := m, n - |Sectors(L, ch[..m])|;
    }
  }

  lemma {:induction false} SectorsLength(L: Layout, ch: seq<nat>)
    ensures |Sectors(L, ch)| == |ch| * L.spc
  {
    if ch != [] {
      var m := |ch| - 1;
      SectorsLength(L, ch[..m]);
      assert |ch| * L.spc == m * L.spc + L.spc;
    }
  }

  /** The `n`-th sector of a file is the `n % spc`-th of its `n / spc`-th cluster, as the code computes it. */
  lemma SectorsAt(L: Layout, ch: seq<nat>, n: nat)
    requires L.spc >= 1
    ensures n < |Sectors(L, ch)| <==> n / L.spc < |ch|
    ensures n < |Sectors(L, ch)| ==> Sectors(L, ch)[n] == SectorOf(L, ch[n / L.spc], n % L.spc)
  {
    SectorsLength(L, ch);
    BelowProduct(n, |ch|, L.spc);
    if n < |Sectors(L, ch)| {
      var i, s := LocateSector(L, ch, n);
      DivOfSum(i, s, L.spc);
    }
  }

  lemma SectorOnDevice(L: Layout, total: nat, c: nat, s: nat)
    requires LayoutOk(L, total) && 2 <= c <= L.maxCluster && s < L.spc
    ensures L.dataStart <= SectorOf(L, c, s) < total
  {
    assert (c - 2) * L.spc <= (L.maxCluster - 2) * L.spc;
  }

  lemma SectorsOnDevice(L: Layout, total: nat, ch: seq<nat>)
    requires LayoutOk(L, total) && InVolume(L, ch)
    ensures forall n :: 0 <= n < |Sectors(L, ch)| ==> L.dataStart <= Sectors(L, ch)[n] < total
  {
    forall n | 0 <= n < |Sectors(L, ch)| ensures L.dataStart <= Sectors(L, ch)[n] < total {
      var i, s := LocateSector(L, ch, n);
      SectorOnDevice(L, total, ch[i], s);
    }
  }

  lemma SameSectorSameCluster(L: Layout, c: nat, s: nat, c': nat, s': nat)
    requires c >= 2 && c' >= 2 && s < L.spc && s' < L.spc
    requires SectorOf(L, c, s) == SectorOf(L, c', s')
    ensures c == c' && s == s'
  {
    DivOfSum(c - 2, s, L.spc);
    DivOfSum(c' - 2, s', L.spc);
  }

  /** The sectors of a chain without repetition are themselves without repetition. */
  lemma SectorsDistinct(L: Layout, ch: seq<nat>)
    requires L.spc >= 1 && forall i :: 0 <= i < |ch| ==> ch[i] >= 2
    requires forall i, j :: 0 <= i < j < |ch| ==> ch[i] != ch[j]
    ensures forall n, m :: 0 <= n < m < |Sectors(L, ch)| ==> Sectors(L, ch)[n] != Sectors(L, ch)[m]
  {
    forall n, m | 0 <= n < m < |Sectors(L, ch)| ensures Sectors(L, ch)[n] != Sectors(L, ch)[m] {
      var i, s := LocateSector(L, ch, n);
      var j, r := LocateSector(L, ch, m);
      if Sectors(L, ch)[n] == Sectors(L, ch)[m] {
        SameSectorSameCluster(L, ch[i], s, ch[j], r);
      }
    }
  }

  /** Chains without a common cluster have no common sector. */
  lemma SectorsDisjoint(L: Layout, a: seq<nat>, b: seq<nat>)
    requires L.spc >= 1
    requires forall i :: 0 <= i < |a| ==> a[i] >= 2
    requires forall i :: 0 <= i < |b| ==> b[i] >= 2
    requires forall i :: 0 <= i < |a| ==> a[i] !in b
    ensures forall s :: s in Sectors(L, a) ==> s !in Sectors(L, b)
  {
    forall s | s in Sectors(L, a) && s in Sectors(L, b) ensures false {
      var n :| 0 <= n < |Sectors(L, a)| && Sectors(L, a)[n] == s;
      var m :| 0 <= m < |Sectors(L, b)| && Sectors(L, b)[m] == s;
      var i, x := LocateSector(L, a, n);
      var j, y := LocateSector(L, b, m);
      SameSectorSameCluster(L, a[i], x, b[j], y);
    }
  }

  // ----- the bytes of a list of sectors -----

  /** Byte `p` of the file stored in sectors `secs`; 0 where there is no such byte. */
  function FileByte(d: Disk, secs: seq<nat>, p: nat): byte {
    var n := p / SECTOR_SIZE;
    if n < |secs| && secs[n] < |d| then d[secs[n]][p % SECTOR_SIZE] else 0
  }

  function FileBytes(d: Disk, secs: seq<nat>, size: nat): (r: seq<byte>)
    ensures |r| == size
    ensures forall p :: 0 <= p < size ==> r[p] == FileByte(d, secs, p)
  {
    seq(size, p requires 0 <= p => FileByte(d, secs, p))
  }

  /** A file reads the same from two devices that agree on its own sectors. */
  lemma FileBytesFrame(d: Disk, d': Disk, secs: seq<nat>, size: nat)
    requires |d'| == |d|
    requires forall s :: 0 <= s < |d| && s in secs ==> d'[s] == d[s]
    ensures FileBytes(d', secs, size) == FileBytes(d, secs, size)
  {
  }

  /** More sectors at the end do not move the bytes that were already there. */
  lemma FileBytesLonger(d: Disk, secs: seq<nat>, more: seq<nat>, size: nat)
    requires size <= |secs| * SECTOR_SIZE
    ensures FileBytes(d, secs + more, size) == FileBytes(d, secs, size)
  {
  }

  /**
   Overlaying `chunk` at the end of a file, inside one sector, appends it: `sector`
   keeps what precedes the end of the file and continues with the chunk.
   */
  lemma AppendInSector(d: Disk, secs: seq<nat>, size: nat, chunk: seq<byte>, sector: Sector)
    requires forall n :: 0 <= n < |secs| ==> secs[n] < |d|
    requires forall n, m :: 0 <= n < m < |secs| ==> secs[n] != secs[m]
    requires size / SECTOR_SIZE < |secs| && size % SECTOR_SIZE + |chunk| <= SECTOR_SIZE
    requires forall i :: 0 <= i < size % SECTOR_SIZE ==> sector[i] == d[secs[size / SECTOR_SIZE]][i]
    requires forall i :: 0 <= i < |chunk| ==> sector[size % SECTOR_SIZE + i] == chunk[i]
    ensures FileBytes(d[secs[size / SECTOR_SIZE] := sector], secs, size + |chunk|)
         == FileBytes(d, secs, size) + chunk
  {
    var n, o := size / SECTOR_SIZE, size % SECTOR_SIZE;
    var d' := d[secs[n] := sector];
    var whole := FileBytes(d, secs, size) + chunk;
    forall p | 0 <= p < size + |chunk| ensures FileByte(d', secs, p) == whole[p] {
      var m := p / SECTOR_SIZE;
      if m == n {
        assert p % SECTOR_SIZE == if p < size then o - (size - p) else o + (p - size);
      } else {
        assert m < n;
      }
    }
  }

  // ----- files -----

  /** A first cluster, a size and the chain between them describe a file of the volume. */
  ghost predicate FileOk(L: Layout, d: Disk, first: nat, size: nat, ch: seq<nat>)
    requires L.fatStart < |d|
  {
    if first == 0 then ch == [] && size == 0
    else IsChain(Table(L, d), ch) && ch[0] == first && InVolume(L, ch) && Holds(L, ch, size)
  }

  /** The chain has room for `size` bytes, and no cluster more than the end of the file may need. */
  ghost predicate Holds(L: Layout, ch: seq<nat>, size: nat) {
    (|Sectors(L, ch)| - L.spc) * SECTOR_SIZE <= size <= |Sectors(L, ch)| * SECTOR_SIZE
  }

  lemma HoldsInClusters(L: Layout, ch: seq<nat>, size: nat)
    requires L.spc >= 1 && |ch| > 0
    ensures Holds(L, ch, size) <==> (|ch| - 1) * ClusterBytes(L) <= size <= |ch| * ClusterBytes(L)
  {
    SectorsLength(L, ch);
    assert |ch| * L.spc * SECTOR_SIZE == |ch| * ClusterBytes(L);
    assert (|ch| - 1) * ClusterBytes(L) == |ch| * ClusterBytes(L) - ClusterBytes(L);
  }

  /** Rounding up and down: what lies between `(k - 1) * b` and `k * b` rounds to `k` or `k - 1`. */
  lemma RoundBounds(x: nat, k: nat, b: nat)
    requires b > 0 && k > 0
    requires (k - 1) * b <= x <= k * b
    ensures (x + b - 1) / b <= k <= x / b + 1
  {
    RoundDown(x, k, b);
    RoundUp(x, k, b);
  }

  lemma RoundDown(x: nat, k: nat, b: nat)
    requires b > 0 && k > 0 && (k - 1) * b <= x
    ensures k <= x / b + 1
  {
    var q := x / b;
    assert x == q * b + x % b;
    assert k > q + 1 ==> (q + 1) * b <= (k - 1) * b;
  }

  lemma RoundUp(x: nat, k: nat, b: nat)
    requires b > 0 && x <= k * b
    ensures (x + b - 1) / b <= k
  {
    var u := (x + b - 1) / b;
    assert x + b - 1 == u * b + (x + b - 1) % b;
    assert u > k ==> (k + 1) * b <= u * b && (k + 1) * b == k * b + b;
  }

  /**
   The length of a file's chain lies between its size rounded up to clusters and
   one more than its size rounded down; no cluster repeats, so every walk of the
   chain ends inside the volume.
   */
  lemma ChainLengthBounds(L: Layout, d: Disk, first: nat, size: nat, ch: seq<nat>)
    requires LayoutOk(L, |d|) && FileOk(L, d, first, size, ch)
    ensures (size + ClusterBytes(L) - 1) / ClusterBytes(L) <= |ch| <= size / ClusterBytes(L) + 1
    ensures |ch| < L.maxCluster
    ensures forall i, j :: 0 <= i < j < |ch| ==> ch[i] != ch[j]
  {
    if first != 0 {
      ChainAcyclic(Table(L, d), ch);
      DistinctBelow(ch, L.maxCluster + 1);
      HoldsInClusters(L, ch, size);
      RoundBounds(size, |ch|, ClusterBytes(L));
    } else {
      DivOfSum(0, ClusterBytes(L) - 1, ClusterBytes(L));
    }
  }

  // ----- what an append does -----

  /** Clusters a file of `size` bytes holds after `n` more bytes are appended. */
  function ClustersAfter(L: Layout, size: nat, n: nat): (k: nat)
    requires L.spc >= 1
  {
    var b := ClusterBytes(L);
    if (size + n + b - 1) / b > size / b + 1 then (size + n + b - 1) / b else size / b + 1
  }

  /** Enough free clusters on the device for appending `n` bytes: the allocator itself does not check. */
  ghost predicate HasRoom(L: Layout, d: Disk, size: nat, ch: seq<nat>, n: nat)
    requires L.fatStart < |d| && L.spc >= 1
  {
    var free := FreeList(Table(L, d));
    && ClustersAfter(L, size, n) <= |ch| + |free|
    && forall i :: 0 <= i < ClustersAfter(L, size, n) - |ch| && i < |free| ==> free[i] <= L.maxCluster
  }

  /**
   `data` has been added to the file with chain `ch` and size `size`: the chain has
   grown by the least free clusters, the contents by `data`, and nothing that
   belongs to another chain has moved.
   */
  ghost predicate Extended(L: Layout, d: Disk, size: nat, ch: seq<nat>, data: seq<byte>, d': Disk, ch': seq<nat>)
    requires LayoutOk(L, |d|)
  {
    && |d'| == |d|
    && Grown(Table(L, d), ch, Table(L, d'), ch')
    && InVolume(L, ch')
    && Holds(L, ch', size + |data|)
    && FileBytes(d', Sectors(L, ch'), size + |data|) == FileBytes(d, Sectors(L, ch), size) + data
    && SameOutside(L, d, d', Sectors(L, ch'))
  }

  /** Two devices agree on every sector but those of the table and those in `secs`. */
  ghost predicate SameOutside(L: Layout, d: Disk, d': Disk, secs: seq<nat>) {
    && |d'| == |d|
    && forall s :: 0 <= s < |d| && s != L.fatStart && s != L.fatStart + 1 && s !in secs ==> d'[s] == d[s]
  }

  /** A finished append also holds exactly the clusters its final size calls for. */
  ghost predicate Appended(L: Layout, d: Disk, size: nat, ch: seq<nat>, data: seq<byte>, d': Disk, ch': seq<nat>)
    requires LayoutOk(L, |d|)
  {
    Extended(L, d, size, ch, data, d', ch') && |ch'| == ClustersAfter(L, size, |data|)
  }
}
