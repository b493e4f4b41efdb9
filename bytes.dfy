/** Bytes and the little-endian integer fields that Python's `struct.pack("<H")`
    and `struct.pack("<I")` produce, with their readers. */
module Bytes {

  type byte = x: int | 0 <= x < 0x100

  const TwoTo16: nat := 0x1_0000
  const TwoTo32: nat := 0x1_0000_0000

  /** A value that `struct.pack("<I", v)` accepts. */
  type u32 = x: int | 0 <= x < 0x1_0000_0000

  /** `struct.pack("<H", v)`: two bytes, least significant first. */
  function LE16(v: nat): (r: seq<byte>)
    requires v < TwoTo16
    ensures |r| == 2 && r[0] as int + 0x100 * (r[1] as int) == v
  {
    [v % 0x100, v / 0x100]
  }

  /** `struct.pack("<I", v)`: four bytes, least significant first. */
  function LE32(v: nat): (r: seq<byte>)
    requires v < TwoTo32
    ensures |r| == 4
  {
    [v % 0x100, (v / 0x100) % 0x100, (v / 0x1_0000) % 0x100, v / 0x100_0000]
  }

  /** Reads the unsigned 16-bit little-endian field starting at `at`. */
  function ReadLE16(b: seq<byte>, at: nat): (v: nat)
    requires at + 2 <= |b|
    ensures v < TwoTo16
  {
    b[at] as int + 0x100 * (b[at + 1] as int)
  }

  /** Reads the unsigned 32-bit little-endian field starting at `at`. */
  function ReadLE32(b: seq<byte>, at: nat): (v: nat)
    requires at + 4 <= |b|
    ensures v < TwoTo32
  {
    b[at] as int + 0x100 * (b[at + 1] as int) + 0x1_0000 * (b[at + 2] as int) + 0x100_0000 * (b[at + 3] as int)
  }

  /** `b"\x00" * n`. */
  function Zeros(n: nat): (r: seq<byte>)
    ensures |r| == n
    ensures forall i :: 0 <= i < n ==> r[i] == 0
  {
    seq(n, _ => 0)
  }

  lemma LE16RoundTrip(v: nat)
    requires v < TwoTo16
    ensures |LE16(v)| == 2 && ReadLE16(LE16(v), 0) == v
  {
  }

  lemma LE32RoundTrip(v: nat)
    requires v < TwoTo32
    ensures |LE32(v)| == 4 && ReadLE32(LE32(v), 0) == v
  {
    var b0, b1, b2, b3 := v % 0x100, (v / 0x100) % 0x100, (v / 0x1_0000) % 0x100, v / 0x100_0000;
    assert v / 0x100 == b1 + 0x100 * (v / 0x1_0000);
    assert v / 0x1_0000 == b2 + 0x100 * b3;
  }

  /** The field reader sees the same value wherever the four bytes sit. */
  lemma ReadLE32At(b: seq<byte>, at: nat, v: nat)
    requires v < TwoTo32
    requires at + 4 <= |b| && b[at..at + 4] == LE32(v)
    ensures ReadLE32(b, at) == v
  {
    LE32RoundTrip(v);
    assert b[at] == LE32(v)[0] && b[at + 1] == LE32(v)[1];
    assert b[at + 2] == LE32(v)[2] && b[at + 3] == LE32(v)[3];
  }

  lemma ReadLE16At(b: seq<byte>, at: nat, v: nat)
    requires v < TwoTo16
    requires at + 2 <= |b| && b[at..at + 2] == LE16(v)
    ensures ReadLE16(b, at) == v
  {
    assert b[at] == LE16(v)[0] && b[at + 1] == LE16(v)[1];
  }
}
