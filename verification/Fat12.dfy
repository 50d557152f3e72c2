/**
 The file allocation table: 12-bit entries packed two to three bytes, cluster
 chains threaded through them, and the first-fit free list.

 The table is the part of FAT 1 that fits its first sector without a straddling
 entry: clusters 0..340 ("FAT Data Structure" in the FAT specification).
 */
module Fat12 {
  import opened Bytes

  const FAT_ENTRIES := 341
  const END_OF_CHAIN := 0xFFF
  const END_MIN := 0xFF8

  type FatTable = seq<nat>

  // ----- packing -----

  /** The value of entry `c` given the two bytes that start at offset `c * 3 / 2`. */
  function Unpack(c: nat, b0: byte, b1: byte): (v: nat)
    ensures v < 4096
  {
    if c % 2 == 1 then (b1 * 256 + b0) / 16 else (b1 % 16) * 256 + b0
  }

  /** Where entry `c` starts: which sector of the table, and which byte of it. */
  function EntrySector(c: nat): nat { c * 3 / 2 / SECTOR_SIZE }

  function EntryOffset(c: nat): nat { c * 3 / 2 % SECTOR_SIZE }

  /** Both bytes of the entry lie in one sector; the driver only ever looks at one. */
  predicate OneSector(c: nat) { EntryOffset(c) + 1 < SECTOR_SIZE }

  function EntryAt(s: Sector, c: nat): (v: nat)
    requires OneSector(c)
    ensures v < 4096
  {
    Unpack(c, s[EntryOffset(c)], s[EntryOffset(c) + 1])
  }

  /** The two bytes of entry `c` after `v` is stored over the old bytes `b0`, `b1`. */
  function Pack(c: nat, v: nat, b0: byte, b1: byte): (byte, byte)
  {
    if c % 2 == 1 then (b0 % 16 + (v % 16) * 16, v / 16 % 256)
    else (v % 256, (b1 / 16) * 16 + v / 256 % 16)
  }

  function StoreEntry(s: Sector, c: nat, v: nat): Sector
    requires OneSector(c)
  {
    var o := EntryOffset(c);
    var (b0, b1) := Pack(c, v, s[o], s[o + 1]);
    s[o := b0][o + 1 := b1]
  }

  function TableOf(s: Sector): (t: FatTable)
    ensures |t| == FAT_ENTRIES
    ensures forall c :: 0 <= c < FAT_ENTRIES ==> t[c] == EntryAt(s, c) && t[c] < 4096
  {
    seq(FAT_ENTRIES, c requires 0 <= c < FAT_ENTRIES => EntryAt(s, c))
  }

  lemma PackReadsBack(c: nat, v: nat, b0: byte, b1: byte)
    ensures var (x0, x1) := Pack(c, v, b0, b1); Unpack(c, x0, x1) == v % 4096
  {
    if c % 2 == 1 {
      SplitTwelve(v, v / 16, 16, 256);
    } else {
      SplitTwelve(v, v / 256, 256, 16);
    }
  }

  lemma SplitTwelve(v: nat, h: nat, m: nat, n: nat)
    requires (m == 16 && n == 256) || (m == 256 && n == 16)
    requires h == v / m
    ensures v % 4096 == v % m + m * (h % n)
  {
    assert v == m * h + v % m && h == n * (h / n) + h % n;
    assert v == 4096 * (h / n) + (v % m + m * (h % n));
  }

  lemma TwoNibbles(high: nat, low: nat)
    requires low < 16
    ensures (16 * high + low) / 16 == high && (16 * high + low) % 16 == low
  {
  }

  /** The neighbour that shares a byte with entry `c` keeps its half of it. */
  lemma PackKeepsNeighbour(c: nat, v: nat, b0: byte, b1: byte, b: byte)
    ensures var (x0, x1) := Pack(c, v, b0, b1);
            if c % 2 == 1 then Unpack(c - 1, b, x0) == Unpack(c - 1, b, b0)
            else Unpack(c + 1, x1, b) == Unpack(c + 1, b1, b)
  {
    var (x0, x1) := Pack(c, v, b0, b1);
    if c % 2 == 1 {
      TwoNibbles(v % 16, b0 % 16);
    } else {
      TwoNibbles(b1 / 16, v / 256 % 16);
      TwoNibbles(16 * b + x1 / 16, x1 % 16);
      TwoNibbles(16 * b + b1 / 16, b1 % 16);
    }
  }

  /** A stored entry reads back, and every other entry of the same sector keeps its value. */
  lemma StoreInSector(s: Sector, c: nat, v: nat, e: nat)
    requires OneSector(c) && OneSector(e) && EntrySector(c) == EntrySector(e)
    ensures EntryAt(StoreEntry(s, c, v), e) == if e == c then v % 4096 else EntryAt(s, e)
  {
    var o: int, x: int := EntryOffset(c), EntryOffset(e);
    var s' := StoreEntry(s, c, v);
    assert s'[o] == Pack(c, v, s[o], s[o + 1]).0 && s'[o + 1] == Pack(c, v, s[o], s[o + 1]).1;
    var p: int, q: int := c * 3 / 2, e * 3 / 2;
    assert p - q == o - x;
    if e == c {
      PackReadsBack(c, v, s[o], s[o + 1]);
    } else if e == c - 1 && c % 2 == 1 {
      PackKeepsNeighbour(c, v, s[o], s[o + 1], s[x]);
    } else if e == c + 1 && c % 2 == 0 {
      PackKeepsNeighbour(c, v, s[o], s[o + 1], s[x + 1]);
    } else {
      assert x + 1 < o || o + 1 < x;
    }
  }

  /** Storing an entry is a point update of the table. */
  lemma StoreUpdatesOneEntry(s: Sector, c: nat, v: nat)
    requires c < FAT_ENTRIES
    ensures TableOf(StoreEntry(s, c, v)) == TableOf(s)[c := v % 4096]
  {
    hide StoreEntry, EntryAt;
    forall e | 0 <= e < FAT_ENTRIES
      ensures TableOf(StoreEntry(s, c, v))[e] == TableOf(s)[c := v % 4096][e]
    {
      StoreInSector(s, c, v, e);
    }
  }

  /** The device after a table store: the entry's sector, then the mirror write to the sector after it. */
  function MirroredStore(d: Disk, fatStart: nat, c: nat, v: nat): (d': Disk)
    requires OneSector(c) && fatStart + EntrySector(c) + 1 < |d|
    ensures |d'| == |d|
  {
    var i := fatStart + EntrySector(c);
    var s := StoreEntry(d[i], c, v);
    d[i := s][i + 1 := s]
  }

  function EntryOn(d: Disk, fatStart: nat, e: nat): nat
    requires OneSector(e) && fatStart + EntrySector(e) < |d|
  {
    EntryAt(d[fatStart + EntrySector(e)], e)
  }

  /**
   A store at `c` leaves another entry `e` of the same table alone, on every device
   and for every value, exactly when `e` is not in the sector after the one of `c`:
   the mirror write lands there, not in the second table.
   */
  lemma MirrorHarmlessIff(fatStart: nat, c: nat, e: nat)
    requires OneSector(c) && OneSector(e) && c != e
    ensures EntrySector(e) != EntrySector(c) + 1
       <==> forall d: Disk, v: nat ::
              fatStart + EntrySector(c) + 1 < |d| && fatStart + EntrySector(e) < |d|
              ==> EntryOn(MirroredStore(d, fatStart, c, v), fatStart, e) == EntryOn(d, fatStart, e)
  {
    if EntrySector(e) != EntrySector(c) + 1 {
      forall d: Disk, v: nat | fatStart + EntrySector(c) + 1 < |d| && fatStart + EntrySector(e) < |d|
        ensures EntryOn(MirroredStore(d, fatStart, c, v), fatStart, e) == EntryOn(d, fatStart, e)
      {
        if EntrySector(e) == EntrySector(c) {
          StoreInSector(d[fatStart + EntrySector(c)], c, v, e);
        }
      }
    } else {
      // every byte 0xFF where the entry is stored, every byte 0 where the mirror lands
      var i := fatStart + EntrySector(c);
      var full: Sector := Fill(255, SECTOR_SIZE);
      var zero: Sector := Fill(0, SECTOR_SIZE);
      var d: Disk := seq(i + 2, k requires 0 <= k < i + 2 => if k == i then full else zero);
      assert StoreEntry(full, c, 4095) == full;
      assert MirroredStore(d, fatStart, c, 4095)[i + 1] == full;
      assert EntryOn(d, fatStart, e) == 0;
      assert EntryOn(MirroredStore(d, fatStart, c, 4095), fatStart, e) == 4095;
    }
  }

  /** Three bytes hold an even entry and the odd one after it, as one 24-bit number, low byte first. */
  lemma TwoEntriesInThreeBytes(s: Sector, k: nat)
    requires 3 * k + 2 < SECTOR_SIZE
    ensures OneSector(2 * k) && OneSector(2 * k + 1)
    ensures EntryAt(s, 2 * k) + 4096 * EntryAt(s, 2 * k + 1)
         == s[3 * k] as nat + 0x100 * s[3 * k + 1] as nat + 0x1_0000 * s[3 * k + 2] as nat
  {
    assert EntryOffset(2 * k) == 3 * k && EntryOffset(2 * k + 1) == 3 * k + 1;
    var b0: nat, b1: nat, b2: nat := s[3 * k], s[3 * k + 1], s[3 * k + 2];
    assert (2 * k) % 2 == 0 && (2 * k + 1) % 2 == 1;
    TwoNibbles(16 * b2 + b1 / 16, b1 % 16);
  }

  // ----- chains -----

  /** `ch` lists the clusters of a chain in order: every link is in the table and the last is an end mark. */
  ghost predicate IsChain(t: FatTable, ch: seq<nat>) {
    && |ch| > 0
    && (forall i :: 0 <= i < |ch| ==> 2 <= ch[i] < |t|)
    && (forall i, j :: 0 <= i && j == i + 1 && j < |ch| ==> t[ch[i]] == ch[j])
    && t[ch[|ch| - 1]] >= END_MIN
  }

  /** No cluster occurs twice: a repeat would make the walk run past the end mark. */
  lemma {:induction false} ChainStepsApart(t: FatTable, ch: seq<nat>, i: nat, j: nat)
    requires IsChain(t, ch) && |t| <= END_MIN
    requires i < j < |ch|
    ensures ch[i] != ch[j]
    decreases |ch| - j
  {
    if ch[i] == ch[j] {
      assert t[ch[i]] == ch[i + 1];
      if j + 1 < |ch| {
        assert t[ch[j]] == ch[j + 1];
        ChainStepsApart(t, ch, i + 1, j + 1);
      }
    }
  }

  lemma ChainAcyclic(t: FatTable, ch: seq<nat>)
    requires IsChain(t, ch) && |t| <= END_MIN
    ensures forall i, j :: 0 <= i < j < |ch| ==> ch[i] != ch[j]
  {
    forall i, j | 0 <= i < j < |ch| ensures ch[i] != ch[j] {
      ChainStepsApart(t, ch, i, j);
    }
  }

  /** Distinct clusters of a table cannot outnumber it, so a chain walk ends inside the volume. */
  lemma ChainFitsTable(t: FatTable, ch: seq<nat>)
    requires IsChain(t, ch) && |t| <= END_MIN
    ensures |ch| + 2 <= |t|
  {
    ChainAcyclic(t, ch);
    DistinctBelow(ch, |t|);
  }

  lemma {:induction false} DistinctBelow(ch: seq<nat>, n: nat)
    requires forall i :: 0 <= i < |ch| ==> 2 <= ch[i] < n
    requires forall i, j :: 0 <= i < j < |ch| ==> ch[i] != ch[j]
    requires n >= 2
    ensures |ch| + 2 <= n
    decreases n
  {
    assert |ch| == 0 || 2 <= ch[0] < n;
    if n == 2 {
    } else if exists k :: 0 <= k < |ch| && ch[k] == n - 1 {
      var k :| 0 <= k < |ch| && ch[k] == n - 1;
      var rest := ch[..k] + ch[k + 1..];
      forall i | 0 <= i < |rest| ensures 2 <= rest[i] < n - 1 {
        assert rest[i] == if i < k then ch[i] else ch[i + 1];
      }
      DistinctBelow(rest, n - 1);
    } else {
      DistinctBelow(ch, n - 1);
    }
  }

  /** The table and the first cluster determine the whole chain. */
  lemma {:induction false} ChainUnique(t: FatTable, a: seq<nat>, b: seq<nat>)
    requires IsChain(t, a) && IsChain(t, b) && a[0] == b[0]
    requires |t| <= END_MIN
    ensures a == b
    decreases |a|
  {
    assert |a| > 1 ==> t[a[0]] == a[1];
    assert |b| > 1 ==> t[b[0]] == b[1];
    if |a| > 1 && |b| > 1 {
      IsChainTail(t, a);
      IsChainTail(t, b);
      ChainUnique(t, a[1..], b[1..]);
      assert a == [a[0]] + a[1..] && b == [b[0]] + b[1..];
    }
  }

  lemma IsChainTail(t: FatTable, ch: seq<nat>)
    requires IsChain(t, ch) && |ch| > 1
    ensures IsChain(t, ch[1..])
  {
    var r := ch[1..];
    forall i, j | 0 <= i && j == i + 1 && j < |r| ensures t[r[i]] == r[j] {
      assert t[ch[i + 1]] == ch[j + 1];
    }
  }

  /** A chain is untouched by an update of an entry outside it. */
  lemma ChainFrame(t: FatTable, t': FatTable, ch: seq<nat>)
    requires IsChain(t, ch) && |t'| == |t|
    requires forall i :: 0 <= i < |ch| ==> t'[ch[i]] == t[ch[i]]
    ensures IsChain(t', ch)
  {
  }

  /** Marking a free cluster as an end and then linking it extends the chain by that cluster. */
  lemma ChainExtend(t: FatTable, ch: seq<nat>, c: nat)
    requires IsChain(t, ch) && |t| <= END_MIN
    requires 2 <= c < |t| && t[c] == 0
    ensures IsChain(t[c := END_OF_CHAIN][ch[|ch| - 1] := c], ch + [c])
    ensures c !in ch
  {
    ChainAcyclic(t, ch);
    forall i | 0 <= i < |ch| ensures ch[i] != c {
      if i + 1 < |ch| { assert t[ch[i]] == ch[i + 1]; }
    }
    var t' := t[c := END_OF_CHAIN][ch[|ch| - 1] := c];
    var ch' := ch + [c];
    forall i, j | 0 <= i && j == i + 1 && j < |ch'| ensures t'[ch'[i]] == ch'[j] {
      if j < |ch| { assert t[ch[i]] == ch[j]; }
    }
  }

  // ----- free clusters -----

  /** The free clusters from `c` on, least first. */
  function FreeFrom(t: FatTable, c: nat): (r: seq<nat>)
    decreases |t| - c
  {
    if c >= |t| then []
    else if t[c] == 0 then [c] + FreeFrom(t, c + 1)
    else FreeFrom(t, c + 1)
  }

  function FreeList(t: FatTable): (r: seq<nat>) {
    FreeFrom(t, 2)
  }

  /** The free list holds exactly the free clusters, in strictly ascending order. */
  lemma {:induction false} FreeFromExact(t: FatTable, c: nat)
    ensures forall x :: x in FreeFrom(t, c) <==> c <= x < |t| && t[x] == 0
    ensures forall i, j :: 0 <= i < j < |FreeFrom(t, c)| ==> FreeFrom(t, c)[i] < FreeFrom(t, c)[j]
    decreases |t| - c
  {
    if c < |t| {
      FreeFromExact(t, c + 1);
      if t[c] == 0 {
        var r := FreeFrom(t, c + 1);
        forall i, j | 0 <= i < j < |FreeFrom(t, c)| ensures FreeFrom(t, c)[i] < FreeFrom(t, c)[j] {
          assert r[j - 1] in r;
        }
      }
    }
  }

  /** Taking the least free cluster removes exactly the head of the free list. */
  lemma {:induction false} FreeTake(t: FatTable, c: nat, v: nat)
    requires |FreeFrom(t, c)| > 0 && v != 0
    ensures c <= FreeFrom(t, c)[0] < |t| && t[FreeFrom(t, c)[0]] == 0
    ensures FreeFrom(t[FreeFrom(t, c)[0] := v], c) == FreeFrom(t, c)[1..]
    decreases |t| - c
  {
    FreeFromExact(t, c);
    assert FreeFrom(t, c)[0] in FreeFrom(t, c);
    if t[c] == 0 {
      FreeFrame(t, t[c := v], c + 1);
    } else {
      FreeTake(t, c + 1, v);
    }
  }

  /** The free list only sees which entries from `c` on are zero. */
  lemma {:induction false} FreeFrame(t: FatTable, t': FatTable, c: nat)
    requires |t'| == |t|
    requires forall x :: c <= x < |t| ==> (t[x] == 0 <==> t'[x] == 0)
    ensures FreeFrom(t', c) == FreeFrom(t, c)
    decreases |t| - c
  {
    if c < |t| {
      FreeFrame(t, t', c + 1);
    }
  }

  /** Skipping clusters that are in use does not change the list. */
  lemma {:induction false} FreeSkip(t: FatTable, lo: nat, hi: nat)
    requires lo <= hi <= |t|
    requires forall x :: lo <= x < hi ==> t[x] != 0
    ensures FreeFrom(t, lo) == FreeFrom(t, hi)
    decreases hi - lo
  {
    if lo < hi {
      FreeSkip(t, lo + 1, hi);
    }
  }

  /** The chain has grown by the least free clusters; the entries of other clusters have not moved. */
  ghost predicate Grown(t: FatTable, ch: seq<nat>, t': FatTable, ch': seq<nat>) {
    var free := FreeList(t);
    var k := |ch'| - |ch|;
    && |t'| == |t|
    && 0 <= k <= |free|
    && ch' == ch + free[..k]
    && FreeList(t') == free[k..]
    && IsChain(t', ch')
    && forall c :: 0 <= c < |t| && c !in ch' ==> t'[c] == t[c]
  }

  lemma GrownNone(t: FatTable, ch: seq<nat>)
    requires IsChain(t, ch)
    ensures Grown(t, ch, t, ch)
  {
    assert FreeList(t)[..0] == [];
  }

  lemma GrownFirst(t: FatTable, c: nat)
    requires |FreeList(t)| > 0 && c == FreeList(t)[0]
    ensures 2 <= c < |t| && t[c] == 0
    ensures IsChain(t[c := END_OF_CHAIN], [c])
    ensures Grown(t, [], t[c := END_OF_CHAIN], [c])
  {
    FreeTake(t, 2, END_OF_CHAIN);
  }

  lemma GrownMore(t0: FatTable, ch0: seq<nat>, t: FatTable, ch: seq<nat>, c: nat)
    requires Grown(t0, ch0, t, ch) && |t| <= END_MIN
    requires |FreeList(t)| > 0 && c == FreeList(t)[0]
    ensures 2 <= c < |t| && t[c] == 0
    ensures Grown(t0, ch0, t[c := END_OF_CHAIN][ch[|ch| - 1] := c], ch + [c])
  {
    FreeTake(t, 2, END_OF_CHAIN);
    var t1 := t[c := END_OF_CHAIN];
    var t2 := t1[ch[|ch| - 1] := c];
    ChainExtend(t, ch, c);
    FreeFrame(t1, t2, 2);
    var free := FreeList(t0);
    var k := |ch| - |ch0|;
    assert c == free[k] && free[k..][1..] == free[k + 1..];
    assert free[..k] + [c] == free[..k + 1];
    assert ch + [c] == ch0 + free[..k + 1];
  }

  /**
   First fit stays inside a volume whose clusters are 2..maxCluster exactly when
   one of them is free: the allocator itself does not know where the volume ends.
   */
  lemma FirstFitInVolumeIff(t: FatTable, maxCluster: nat)
    requires 2 <= maxCluster < |t| && |FreeList(t)| > 0
    ensures FreeList(t)[0] <= maxCluster <==> exists c :: 2 <= c <= maxCluster && t[c] == 0
  {
    FreeFromExact(t, 2);
    assert FreeList(t)[0] in FreeList(t);
    if exists c :: 2 <= c <= maxCluster && t[c] == 0 {
      var c :| 2 <= c <= maxCluster && t[c] == 0;
      assert c in FreeList(t);
    }
  }

  /** A chain goes from cluster to cluster below 0xFF8 and ends in a mark from 0xFF8 on; new ends are marked 0xFFF. */
  lemma ChainMarks(t: FatTable, ch: seq<nat>, i: nat)
    requires |t| == FAT_ENTRIES && IsChain(t, ch) && i < |ch|
    ensures if i + 1 < |ch| then t[ch[i]] == ch[i + 1] && t[ch[i]] < 0xFF8 else 0xFF8 <= t[ch[i]]
    ensures END_OF_CHAIN == 0xFFF
  {
  }
}
