/** Bytes, device sectors and the little-endian fields stored in them. */
module Bytes {

  type byte = x: int | 0 <= x < 256

  const SECTOR_SIZE := 512

  type Sector = s: seq<byte> | |s| == SECTOR_SIZE witness seq(SECTOR_SIZE, _ => 0)

  type Disk = seq<Sector>

  /** A block of `n` copies of `b`: what `memset` leaves behind. */
  function Fill(b: byte, n: nat): (s: seq<byte>)
    ensures |s| == n
    ensures forall i :: 0 <= i < n ==> s[i] == b
  {
    seq(n, _ => b)
  }

  /** `s` with the bytes from `off` on replaced by `data`. */
  function Overlay(s: seq<byte>, off: nat, data: seq<byte>): (r: seq<byte>)
    requires off + |data| <= |s|
    ensures |r| == |s|
    ensures forall i :: 0 <= i < |s| ==> r[i] == if off <= i < off + |data| then data[i - off] else s[i]
  {
    s[..off] + data + s[off + |data|..]
  }

  /** A 16-bit field, low byte first. */
  function Le16(v: nat): (r: seq<byte>)
    ensures |r| == 2
  {
    [v % 256, v / 256 % 256]
  }

  /** A 32-bit field, low byte first. */
  function Le32(v: nat): (r: seq<byte>)
    ensures |r| == 4
  {
    [v % 256, v / 256 % 256] + Le16(v / 256 / 256)
  }

  function FromLe16(s: seq<byte>): nat
    requires |s| == 2
  {
    var lo: nat, hi: nat := s[0], s[1];
    lo + 256 * hi
  }

  function FromLe32(s: seq<byte>): nat
    requires |s| == 4
  {
    FromLe16(s[..2]) + 0x1_0000 * FromLe16(s[2..])
  }

  lemma Le16RoundTrip(v: nat)
    ensures FromLe16(Le16(v)) == v % 0x1_0000
  {
    var a := v / 256;
    assert v == 256 * a + v % 256 && a == 256 * (a / 256) + a % 256;
    assert v == 0x1_0000 * (a / 256) + (256 * (a % 256) + v % 256);
  }

  /** A number put together from its low 16 bits and the 16 above them. */
  lemma TwoHalves(v: nat)
    ensures v % 0x1_0000_0000 == v % 0x1_0000 + 0x1_0000 * (v / 0x1_0000 % 0x1_0000)
  {
    var h := v / 0x1_0000;
    assert v == 0x1_0000_0000 * (h / 0x1_0000) + (0x1_0000 * (h % 0x1_0000) + v % 0x1_0000);
  }

  lemma Le32RoundTrip(v: nat)
    ensures FromLe32(Le32(v)) == v % 0x1_0000_0000
  {
    hide Le16, FromLe16;
    var h := v / 256 / 256;
    assert h == v / 0x1_0000;
    Le16RoundTrip(v);
    Le16RoundTrip(h);
    LowHalf(v);
    assert Le32(v)[..2] == Le16(v) && Le32(v)[2..] == Le16(h);
    TwoHalves(v);
  }

  lemma LowHalf(v: nat)
    ensures Le16(v) == [v % 256, v / 256 % 256]
  {
  }

  /** Fields are stored low byte first. */
  lemma LittleEndian(s: seq<byte>)
    ensures |s| == 2 ==> FromLe16(s) == s[0] as nat + 256 * s[1] as nat
    ensures |s| == 4 ==>
      FromLe32(s) == s[0] as nat + 0x100 * s[1] as nat + 0x1_0000 * s[2] as nat + 0x100_0000 * s[3] as nat
  {
    if |s| == 4 {
      assert s[..2][0] == s[0] && s[..2][1] == s[1] && s[2..][0] == s[2] && s[2..][1] == s[3];
    }
  }
}
