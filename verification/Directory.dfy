/**
 The root directory: 8.3 names, 32-byte entries, and the three ways the driver scans
 its 14 sectors of 16 entries each.
 */
module Directory {
  import opened Bytes
  import opened Volume

  const DIR_SLOTS := 224
  const SLOTS_PER_SECTOR := 16
  const DIRENT_SIZE := 32
  const HANDLE_NAME := 11
  const SPACE: byte := 32
  const DOT: byte := 46
  const DELETED: byte := 0xE5

  type Dirent = s: seq<byte> | |s| == DIRENT_SIZE witness seq(DIRENT_SIZE, _ => 0)

  // ----- names -----

  function Upper(b: byte): byte {
    if 97 <= b <= 122 then b - 32 else b
  }

  /** The upper-cased first `n` bytes of `s`, filled up with spaces. */
  function Pad(s: seq<byte>, n: nat): (r: seq<byte>)
    ensures |r| == n
  {
    seq(n, i requires 0 <= i => if i < |s| then Upper(s[i]) else SPACE)
  }

  /** The position of the first dot, or the length of the name. */
  function DotAt(s: seq<byte>): (r: nat)
    ensures r <= |s|
    ensures forall i :: 0 <= i < r ==> s[i] != DOT
    ensures r < |s| ==> s[r] == DOT
  {
    if s == [] || s[0] == DOT then 0 else 1 + DotAt(s[1..])
  }

  function Base(s: seq<byte>): seq<byte> { s[..DotAt(s)] }

  function Ext(s: seq<byte>): seq<byte> {
    if DotAt(s) < |s| then s[DotAt(s) + 1..] else []
  }

  /** The 11 bytes under which a name is stored and looked up. */
  function Name83(s: seq<byte>): (r: seq<byte>)
    ensures |r| == 11
  {
    Pad(Base(s), 8) + Pad(Ext(s), 3)
  }

  /** What a handle remembers of the name it was opened with. */
  function Remembered(s: seq<byte>): seq<byte> {
    if |s| > HANDLE_NAME then s[..HANDLE_NAME] else s
  }

  lemma DotAtUnique(s: seq<byte>, r: nat)
    requires r <= |s| && (r < |s| ==> s[r] == DOT)
    requires forall i :: 0 <= i < r ==> s[i] != DOT
    ensures DotAt(s) == r
  {
  }

  /** Cutting a twelve-byte name to eleven bytes cuts one byte off its extension, if it has one. */
  lemma CutName(s: seq<byte>)
    requires |s| == 12
    ensures if DotAt(s) < HANDLE_NAME
            then Base(Remembered(s)) == Base(s) && Ext(Remembered(s)) == Ext(s)[..10 - DotAt(s)]
            else Pad(Base(Remembered(s)), 8) == Pad(Base(s), 8) && Ext(Remembered(s)) == [] == Ext(s)
  {
    hide DotAt;
    var t := Remembered(s);
    DotAtUnique(t, if DotAt(s) < HANDLE_NAME then DotAt(s) else HANDLE_NAME);
  }

  /** Dropping the last byte of an extension shows exactly when that byte is stored and not a space. */
  lemma CutExtIff(y: seq<byte>)
    requires |y| > 0
    ensures Pad(y[..|y| - 1], 3) == Pad(y, 3) <==> |y| > 3 || y[|y| - 1] == SPACE
  {
    var x, n := y[..|y| - 1], |y| - 1;
    if n < 3 {
      assert Pad(y, 3)[n] == Upper(y[n]) && Pad(x, 3)[n] == SPACE;
      if y[n] == SPACE {
        assert forall i :: 0 <= i < 3 ==> Pad(x, 3)[i] == Pad(y, 3)[i];
      }
    } else {
      assert forall i :: 0 <= i < 3 ==> Pad(x, 3)[i] == Pad(y, 3)[i];
    }
  }

  lemma SameName(s: seq<byte>, t: seq<byte>)
    ensures Name83(s) == Name83(t) <==> Pad(Base(s), 8) == Pad(Base(t), 8) && Pad(Ext(s), 3) == Pad(Ext(t), 3)
  {
    hide DotAt, Pad;
    assert Name83(s)[..8] == Pad(Base(s), 8) && Name83(s)[8..] == Pad(Ext(s), 3);
    assert Name83(t)[..8] == Pad(Base(t), 8) && Name83(t)[8..] == Pad(Ext(t), 3);
  }

  /**
   Closing a file stores its size under the name the handle remembers. Among the
   names `create` accepts, that is the name the file was created under exactly
   unless the name has twelve bytes and its last byte is a significant byte of the
   extension.
   */
  lemma RememberedNameIff(s: seq<byte>)
    requires |s| <= 12
    ensures Name83(Remembered(s)) == Name83(s)
       <==> |s| <= HANDLE_NAME || DotAt(s) <= 7 || DotAt(s) >= HANDLE_NAME || s[HANDLE_NAME] == SPACE
  {
    hide DotAt, Pad, Name83;
    if |s| > HANDLE_NAME {
      CutName(s);
      SameName(Remembered(s), s);
      if DotAt(s) < HANDLE_NAME {
        var x, y := Ext(Remembered(s)), Ext(s);
        assert y[|y| - 1] == s[HANDLE_NAME];
        CutExtIff(y);
      }
    }
  }

  // ----- which characters are the same -----

  /** The same ASCII letter, capital and small. */
  predicate SameLetter(a: byte, b: byte) {
    (65 <= a <= 90 && b as int == a as int + 32) || (65 <= b <= 90 && a as int == b as int + 32)
  }

  /** Two names that differ in the case of letters at most. */
  predicate SameButCase(s: seq<byte>, t: seq<byte>) {
    |s| == |t| && forall i :: 0 <= i < |s| ==> s[i] == t[i] || SameLetter(s[i], t[i])
  }

  /** The case of letters does not matter to the stored name. */
  lemma CaseIgnored(s: seq<byte>, t: seq<byte>)
    requires SameButCase(s, t)
    ensures Name83(s) == Name83(t)
  {
    hide DotAt;
    DotAtUnique(t, DotAt(s));
    PadIgnoresCase(Base(s), Base(t), 8);
    PadIgnoresCase(Ext(s), Ext(t), 3);
  }

  lemma PadIgnoresCase(s: seq<byte>, t: seq<byte>, n: nat)
    requires SameButCase(s, t)
    ensures Pad(s, n) == Pad(t, n)
  {
  }

  /** No small letter is stored. */
  lemma NoSmallLetters(s: seq<byte>, i: nat)
    requires i < 11
    ensures !(97 <= Name83(s)[i] <= 122)
  {
    hide DotAt;
  }

  /**
   Where the characters of a name are stored, as themselves unless they are small letters:
   those before the first dot from place 0 on, those after it from place 8 on.
   */
  lemma StoredCharacters(s: seq<byte>, dot: nat, i: nat)
    requires dot <= |s| && (forall j :: 0 <= j < dot ==> s[j] != 46) && (dot < |s| ==> s[dot] == 46)
    ensures i < 8 && i < dot && !(97 <= s[i] <= 122) ==> Name83(s)[i] == s[i]
    ensures i < 8 && i >= dot ==> Name83(s)[i] == 32
    ensures i < 3 && dot + 1 + i < |s| && !(97 <= s[dot + 1 + i] <= 122) ==> Name83(s)[8 + i] == s[dot + 1 + i]
    ensures i < 3 && dot + 1 + i >= |s| ==> Name83(s)[8 + i] == 32
  {
    hide DotAt;
    DotAtUnique(s, dot);
    var n := Name83(s);
    assert i < 8 ==> n[i] == Pad(Base(s), 8)[i];
    assert i < 3 ==> n[8 + i] == Pad(Ext(s), 3)[i];
  }

  /** The bytes of `ABCDEFGH.TXT`. */
  const FULL_NAME: seq<byte> := [65, 66, 67, 68, 69, 70, 71, 72, 46, 84, 88, 84]

  /** A name with all eight and all three characters is not remembered. */
  lemma FullNameForgotten()
    ensures |FULL_NAME| == 12 && Name83(Remembered(FULL_NAME)) != Name83(FULL_NAME)
  {
    hide Name83;
    DotAtUnique(FULL_NAME, 8);
    RememberedNameIff(FULL_NAME);
  }

  /** A name of printable bytes is never stored as a free or a deleted entry. */
  lemma NameIsLive(s: seq<byte>)
    requires 0 !in s && |s| > 0 && s[0] != DELETED
    ensures Name83(s)[0] != 0 && Name83(s)[0] != DELETED
  {
    assert Name83(s)[0] == if DotAt(s) == 0 then SPACE else Upper(s[0]);
  }

  // ----- entries -----

  function NameOf(e: Dirent): seq<byte> { e[..11] }

  function FirstOf(e: Dirent): nat { FromLe16(e[26..28]) }

  function SizeOf(e: Dirent): nat { FromLe32(e[28..32]) }

  predicate Live(e: Dirent) { e[0] != 0 && e[0] != DELETED }

  /** A fresh entry: the name, the archive attribute, no cluster and no bytes. */
  function NewEntry(name: seq<byte>): Dirent
    requires |name| == 11
  {
    name + [0x20] + Fill(0, 20)
  }

  function WithInfo(e: Dirent, first: nat, size: nat): Dirent {
    e[..26] + Le16(first) + Le32(size)
  }

  function MarkDeleted(e: Dirent): Dirent { e[0 := DELETED] }

  lemma NewEntryFields(name: seq<byte>)
    requires |name| == 11
    ensures NameOf(NewEntry(name)) == name && NewEntry(name)[0] == name[0]
    ensures FirstOf(NewEntry(name)) == 0 && SizeOf(NewEntry(name)) == 0
  {
    var e := NewEntry(name);
    assert e[26] == 0 && e[27] == 0;
    assert e[28..32][..2][0] == 0 && e[28..32][..2][1] == 0 && e[28..32][2..][0] == 0 && e[28..32][2..][1] == 0;
  }

  lemma WithInfoFields(e: Dirent, first: nat, size: nat)
    requires first < 0x1_0000 && size < 0x1_0000_0000
    ensures NameOf(WithInfo(e, first, size)) == NameOf(e) && WithInfo(e, first, size)[0] == e[0]
    ensures FirstOf(WithInfo(e, first, size)) == first && SizeOf(WithInfo(e, first, size)) == size
  {
    var w := WithInfo(e, first, size);
    assert w[26..28] == Le16(first) && w[28..32] == Le32(size);
    Le16RoundTrip(first);
    Le32RoundTrip(size);
  }

  // ----- the directory on the device -----

  /** Entry `k` of the directory; all zero where the device has no such sector. */
  function SlotAt(L: Layout, d: Disk, k: nat): Dirent {
    var i, o := L.rootStart + k / SLOTS_PER_SECTOR, DIRENT_SIZE * (k % SLOTS_PER_SECTOR);
    if i < |d| then d[i][o..o + DIRENT_SIZE] else Fill(0, DIRENT_SIZE)
  }

  function DirOf(L: Layout, d: Disk): (r: seq<Dirent>)
    ensures |r| == DIR_SLOTS
    ensures forall k :: 0 <= k < DIR_SLOTS ==> r[k] == SlotAt(L, d, k)
  {
    seq(DIR_SLOTS, k requires 0 <= k < DIR_SLOTS => SlotAt(L, d, k))
  }

  /** The device after entry `k` has been rewritten. */
  function PutSlot(L: Layout, d: Disk, k: nat, e: Dirent): (d': Disk)
    requires L.rootStart + ROOT_SECTORS <= |d| && k < DIR_SLOTS
    ensures |d'| == |d|
  {
    var i := L.rootStart + k / SLOTS_PER_SECTOR;
    d[i := Overlay(d[i], DIRENT_SIZE * (k % SLOTS_PER_SECTOR), e)]
  }

  /** Rewriting an entry changes that entry only, and only a sector of the directory. */
  lemma PutSlotOne(L: Layout, d: Disk, k: nat, e: Dirent)
    requires L.rootStart + ROOT_SECTORS <= |d| && k < DIR_SLOTS
    ensures DirOf(L, PutSlot(L, d, k, e)) == DirOf(L, d)[k := e]
    ensures forall s :: 0 <= s < |d| && !(L.rootStart <= s < L.rootStart + ROOT_SECTORS)
              ==> PutSlot(L, d, k, e)[s] == d[s]
  {
    var d' := PutSlot(L, d, k, e);
    forall m | 0 <= m < DIR_SLOTS ensures DirOf(L, d')[m] == DirOf(L, d)[k := e][m] {
      var o, p := DIRENT_SIZE * (k % SLOTS_PER_SECTOR), DIRENT_SIZE * (m % SLOTS_PER_SECTOR);
      if m == k {
        var sec := d[L.rootStart + k / SLOTS_PER_SECTOR];
        assert Overlay(sec, o, e)[o..o + DIRENT_SIZE] == e;
      } else if m / SLOTS_PER_SECTOR == k / SLOTS_PER_SECTOR {
        assert p + DIRENT_SIZE <= o || o + DIRENT_SIZE <= p;
        var sec := d[L.rootStart + k / SLOTS_PER_SECTOR];
        OverlayBeside(sec, o, e, p, DIRENT_SIZE);
      }
    }
  }

  lemma OverlayBeside(s: seq<byte>, off: nat, data: seq<byte>, p: nat, n: nat)
    requires off + |data| <= |s| && p + n <= |s| && (p + n <= off || off + |data| <= p)
    ensures Overlay(s, off, data)[p..p + n] == s[p..p + n]
  {
  }

  // ----- the three scans -----

  /** `find`: skips deleted entries; a never-used entry ends the current sector only. */
  function ScanFind(dir: seq<Dirent>, name: seq<byte>, k: nat): nat
    decreases |dir| - k
  {
    if k >= |dir| then |dir|
    else if dir[k][0] == 0 then ScanFind(dir, name, (k / SLOTS_PER_SECTOR + 1) * SLOTS_PER_SECTOR)
    else if dir[k][0] != DELETED && NameOf(dir[k]) == name then k
    else ScanFind(dir, name, k + 1)
  }

  /** `update` and `delete`: a never-used entry ends the whole scan. */
  function ScanStop(dir: seq<Dirent>, name: seq<byte>, k: nat): nat
    decreases |dir| - k
  {
    if k >= |dir| || dir[k][0] == 0 then |dir|
    else if dir[k][0] != DELETED && NameOf(dir[k]) == name then k
    else ScanStop(dir, name, k + 1)
  }

  /** `create`: the first entry that is never used or deleted. */
  function ScanFree(dir: seq<Dirent>, k: nat): nat
    decreases |dir| - k
  {
    if k >= |dir| then |dir|
    else if !Live(dir[k]) then k
    else ScanFree(dir, k + 1)
  }

  /** No entry in use comes after a never-used one. */
  ghost predicate DirOk(dir: seq<Dirent>) {
    forall i, j :: 0 <= i < j < |dir| && dir[i][0] == 0 ==> !Live(dir[j])
  }

  /** `r` is the first entry in use under `name`, or the length of the directory if there is none. */
  ghost predicate FirstMatch(dir: seq<Dirent>, name: seq<byte>, r: nat) {
    && r <= |dir|
    && (r < |dir| ==> Live(dir[r]) && NameOf(dir[r]) == name)
    && forall i :: 0 <= i < r ==> !(Live(dir[i]) && NameOf(dir[i]) == name)
  }

  lemma {:induction false} ScanFindFirst(dir: seq<Dirent>, name: seq<byte>, k: nat)
    requires DirOk(dir) && k <= |dir| + SLOTS_PER_SECTOR
    requires forall i :: 0 <= i < k && i < |dir| ==> !(Live(dir[i]) && NameOf(dir[i]) == name)
    ensures FirstMatch(dir, name, ScanFind(dir, name, k))
    decreases |dir| - k
  {
    if k < |dir| {
      if dir[k][0] == 0 {
        ScanFindFirst(dir, name, (k / SLOTS_PER_SECTOR + 1) * SLOTS_PER_SECTOR);
      } else if dir[k][0] != DELETED && NameOf(dir[k]) == name {
      } else {
        ScanFindFirst(dir, name, k + 1);
      }
    }
  }

  lemma {:induction false} ScanStopFirst(dir: seq<Dirent>, name: seq<byte>, k: nat)
    requires DirOk(dir) && k <= |dir|
    requires forall i :: 0 <= i < k ==> !(Live(dir[i]) && NameOf(dir[i]) == name)
    ensures FirstMatch(dir, name, ScanStop(dir, name, k))
    decreases |dir| - k
  {
    if k >= |dir| || dir[k][0] == 0 || (dir[k][0] != DELETED && NameOf(dir[k]) == name) {
    } else {
      ScanStopFirst(dir, name, k + 1);
    }
  }

  /** In a well-formed directory `find`, `update` and `delete` all settle on the same entry: the first match. */
  lemma ScansAgree(dir: seq<Dirent>, name: seq<byte>)
    requires DirOk(dir)
    ensures FirstMatch(dir, name, ScanFind(dir, name, 0))
    ensures ScanStop(dir, name, 0) == ScanFind(dir, name, 0)
  {
    ScanFindFirst(dir, name, 0);
    ScanStopFirst(dir, name, 0);
  }

  lemma {:induction false} ScanFreeFirst(dir: seq<Dirent>, k: nat)
    requires k <= |dir|
    requires forall i :: 0 <= i < k ==> Live(dir[i])
    ensures k <= ScanFree(dir, k) <= |dir|
    ensures ScanFree(dir, k) < |dir| ==> !Live(dir[ScanFree(dir, k)])
    ensures forall i :: 0 <= i < ScanFree(dir, k) ==> Live(dir[i])
    decreases |dir| - k
  {
    if k < |dir| && Live(dir[k]) {
      ScanFreeFirst(dir, k + 1);
    }
  }

  /** Filling the first free entry, and marking or rewriting an entry in use, keep the directory well formed. */
  lemma DirOkKept(dir: seq<Dirent>, k: nat, e: Dirent)
    requires DirOk(dir) && k < |dir|
    requires Live(dir[k]) || k == ScanFree(dir, 0)
    requires e[0] != 0
    ensures DirOk(dir[k := e])
  {
    ScanFreeFirst(dir, 0);
    var dir' := dir[k := e];
    forall i, j | 0 <= i < j < |dir| && dir'[i][0] == 0 ensures !Live(dir'[j]) {
      assert i != k && dir[i][0] == 0;
      assert k == ScanFree(dir, 0) && i < k ==> Live(dir[i]);
    }
  }

  /** After a create, looking up the same name, in any letters capital or small, finds an entry in use. */
  lemma CreatedIsFound(L: Layout, d: Disk, s: seq<byte>, t: seq<byte>)
    requires LayoutOk(L, |d|) && DirOk(DirOf(L, d)) && ScanFree(DirOf(L, d), 0) < DIR_SLOTS
    requires SameButCase(s, t) && 0 !in s && |s| > 0 && s[0] != DELETED
    ensures var dir' := DirOf(L, PutSlot(L, d, ScanFree(DirOf(L, d), 0), NewEntry(Name83(s))));
            var q := ScanFind(dir', Name83(t), 0);
            q < DIR_SLOTS && Live(dir'[q]) && NameOf(dir'[q]) == Name83(s)
  {
    hide DirOf, PutSlot, ScanFind, ScanStop, ScanFree, Name83, NewEntry, SameButCase, NameOf;
    var dir, e := DirOf(L, d), NewEntry(Name83(s));
    var r := ScanFree(dir, 0);
    CaseIgnored(s, t);
    NameIsLive(s);
    NewEntryFields(Name83(s));
    PutSlotOne(L, d, r, e);
    DirOkKept(dir, r, e);
    ScansAgree(dir[r := e], Name83(t));
    assert Live(dir[r := e][r]) && NameOf(dir[r := e][r]) == Name83(t);
  }

  /**
   The bytes of an entry: the name first, the cluster in bytes 26 and 27, the size from byte 28 on, low byte
   first.
   */
  lemma EntryBytes(e: Dirent, first: nat, size: nat)
    ensures NameOf(e) == e[..11]
    ensures FirstOf(e) == e[26] as nat + 0x100 * e[27] as nat
    ensures SizeOf(e) == e[28] as nat + 0x100 * e[29] as nat + 0x1_0000 * e[30] as nat + 0x100_0000 * e[31] as nat
    ensures WithInfo(e, first, size)[..26] == e[..26]
    ensures MarkDeleted(e) == [0xE5] + e[1..] && !Live(MarkDeleted(e))
    ensures Live(e) <==> e[0] != 0 && e[0] != 0xE5
  {
    LittleEndian(e[26..28]);
    LittleEndian(e[28..32]);
  }

  /** A new entry is in use, an archived file and not a directory, and otherwise zero. */
  lemma NewEntryBytes(name: seq<byte>)
    requires |name| == 11
    ensures var e := NewEntry(name); e[..11] == name && e[11] == 0x20 && forall i :: 12 <= i < 32 ==> e[i] == 0
  {
  }
}
