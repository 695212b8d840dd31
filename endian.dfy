/**
 * Little-endian integer codec (src/endian_util.h).
 *
 * Bytes, 16-bit and 32-bit unsigned integers are bounded `int`s.  A C
 * expression such as `p[0] | (p[1] << 8)` combines bytes whose bits do not
 * overlap, so the OR equals the sum `p[0] + 256 * p[1]`; `(v >> 8) & 0xFF` on
 * an unsigned value equals `v / 256 % 256`.  The model writes them that way.
 */
module Endian {

  type u8 = x: int | 0 <= x < 0x100
  type u16 = x: int | 0 <= x < 0x1_0000
  type u32 = x: int | 0 <= x < 0x1_0000_0000

  const UINT32_MAX: u32 := 0xFFFF_FFFF

  /** `n` zero bytes (what calloc and ftruncate provide). */
  function Zeros(n: nat): (r: seq<u8>)
    ensures |r| == n
    ensures forall i :: 0 <= i < n ==> r[i] == 0
  {
    seq(n, _ => 0)
  }

  /**
   * The bytes of `s` after `data` is stored at offset `at`, in the manner of
   * pwrite: bytes before `at` and after the written range keep their value,
   * and a write that runs past the end makes the sequence longer.
   */
  function Overwrite(s: seq<u8>, at: nat, data: seq<u8>): (r: seq<u8>)
    requires at <= |s|
    ensures |r| == if at + |data| <= |s| then |s| else at + |data|
    ensures forall i :: 0 <= i < |r| ==> r[i] == if at <= i < at + |data| then data[i - at] else s[i]
  {
    if at + |data| <= |s| then s[..at] + data + s[at + |data|..] else s[..at] + data
  }

  // ---------------------------------------------------------------------------
  // Reads (endian_util.h:11-26)
  // ---------------------------------------------------------------------------

  /** read_le_u16: the 16-bit value whose low byte is p[at] and high byte p[at + 1]. */
  function ReadLeU16(p: seq<u8>, at: nat): (r: u16)
    requires at + 2 <= |p|
    ensures r % 0x100 == p[at] && r / 0x100 == p[at + 1]
  {
    p[at] as int + 0x100 * p[at + 1] as int
  }

  /** read_le_u32: the 32-bit value whose base-256 digits are p[at..at + 4], lowest first. */
  function ReadLeU32(p: seq<u8>, at: nat): (r: u32)
    requires at + 4 <= |p|
    ensures r % 0x100 == p[at] && r / 0x100 % 0x100 == p[at + 1]
    ensures r / 0x1_0000 % 0x100 == p[at + 2] && r / 0x100_0000 == p[at + 3]
  {
    Base256Digits(p[at], p[at + 1], p[at + 2], p[at + 3]);
    p[at] as int + 0x100 * p[at + 1] as int + 0x1_0000 * p[at + 2] as int + 0x100_0000 * p[at + 3] as int
  }

  // ---------------------------------------------------------------------------
  // Writes (endian_util.h:33-48)
  // ---------------------------------------------------------------------------

  /** The two bytes write_le_u16 stores, lowest first. */
  function EncodeU16(v: u16): (r: seq<u8>)
    ensures |r| == 2
  {
    [v % 0x100, v / 0x100 % 0x100]
  }

  /** The four bytes write_le_u32 stores, lowest first. */
  function EncodeU32(v: u32): (r: seq<u8>)
    ensures |r| == 4
  {
    [v % 0x100, v / 0x100 % 0x100, v / 0x1_0000 % 0x100, v / 0x100_0000 % 0x100]
  }

  /** The buffer after write_le_u16(s + at, v). */
  function PutU16(s: seq<u8>, at: nat, v: u16): (r: seq<u8>)
    requires at + 2 <= |s|
    ensures |r| == |s|
    ensures r[at] == v % 0x100 && r[at + 1] == v / 0x100
    ensures forall i :: 0 <= i < |s| && (i < at || at + 2 <= i) ==> r[i] == s[i]
  {
    Overwrite(s, at, EncodeU16(v))
  }

  /** The buffer after write_le_u32(s + at, v). */
  function PutU32(s: seq<u8>, at: nat, v: u32): (r: seq<u8>)
    requires at + 4 <= |s|
    ensures |r| == |s|
    ensures r[at..at + 4] == EncodeU32(v)
    ensures forall i :: 0 <= i < |s| && (i < at || at + 4 <= i) ==> r[i] == s[i]
  {
    Overwrite(s, at, EncodeU32(v))
  }

  /** write_le_u16: stores v at p[at], p[at+1], touching no other byte. */
  method WriteLeU16(p: array<u8>, at: nat, v: u16)
    requires at + 2 <= p.Length
    modifies p
    ensures p[..] == PutU16(old(p[..]), at, v)
  {
    p[at] := v % 0x100;
    p[at + 1] := v / 0x100 % 0x100;
    assert p[..] == Overwrite(old(p[..]), at, EncodeU16(v));
  }

  /** write_le_u32: stores v at p[at..at+4], touching no other byte. */
  method WriteLeU32(p: array<u8>, at: nat, v: u32)
    requires at + 4 <= p.Length
    modifies p
    ensures p[..] == PutU32(old(p[..]), at, v)
  {
    p[at] := v % 0x100;
    p[at + 1] := v / 0x100 % 0x100;
    p[at + 2] := v / 0x1_0000 % 0x100;
    p[at + 3] := v / 0x100_0000 % 0x100;
    assert p[..] == Overwrite(old(p[..]), at, EncodeU32(v));
  }

  // ---------------------------------------------------------------------------
  // Properties of the codec
  // ---------------------------------------------------------------------------

  /** Reading back the two bytes written for v gives v. */
  lemma ReadEncodeU16(v: u16)
    ensures ReadLeU16(EncodeU16(v), 0) == v
  {
  }

  /** Digits of a base-256 number with four digits. */
  lemma Base256Digits(a: u8, b: u8, c: u8, d: u8)
    ensures var v := a as int + 0x100 * b as int + 0x1_0000 * c as int + 0x100_0000 * d as int;
      v % 0x100 == a && v / 0x100 % 0x100 == b && v / 0x1_0000 % 0x100 == c && v / 0x100_0000 % 0x100 == d
  {
    var v := a as int + 0x100 * b as int + 0x1_0000 * c as int + 0x100_0000 * d as int;
    assert v == a as int + 0x100 * (b as int + 0x100 * c as int + 0x1_0000 * d as int);
    assert v / 0x100 == b as int + 0x100 * (c as int + 0x100 * d as int);
    assert v / 0x1_0000 == c as int + 0x100 * d as int;
    assert v / 0x100_0000 == d as int;
  }

  /** Reading back the four bytes written for v gives v. */
  lemma ReadEncodeU32(v: u32)
    ensures ReadLeU32(EncodeU32(v), 0) == v
  {
    var q1 := v / 0x100;
    var q2 := v / 0x1_0000;
    var q3 := v / 0x100_0000;
    assert q2 == q1 / 0x100;
    assert q3 == q2 / 0x100;
    assert v == v % 0x100 + 0x100 * q1;
    assert q1 == q1 % 0x100 + 0x100 * q2;
    assert q2 == q2 % 0x100 + 0x100 * q3;
    assert q3 < 0x100;
  }

  /** Writing back the value just read reproduces the two bytes it came from. */
  lemma EncodeReadU16(p: seq<u8>, at: nat)
    requires at + 2 <= |p|
    ensures EncodeU16(ReadLeU16(p, at)) == p[at..at + 2]
  {
  }

  /** Writing back the value just read reproduces the four bytes it came from. */
  lemma EncodeReadU32(p: seq<u8>, at: nat)
    requires at + 4 <= |p|
    ensures EncodeU32(ReadLeU32(p, at)) == p[at..at + 4]
  {
    Base256Digits(p[at], p[at + 1], p[at + 2], p[at + 3]);
  }

  /** 256 to the power k. */
  function Pow256(k: nat): (r: nat)
    ensures r >= 1
  {
    if k == 0 then 1 else 0x100 * Pow256(k - 1)
  }

  /** Byte i of write_le_u32(v) is (v >> 8*i) & 0xFF: least significant byte first. */
  lemma EncodeU32Byte(v: u32, i: nat)
    requires i < 4
    ensures EncodeU32(v)[i] == v / Pow256(i) % 0x100
  {
    assert Pow256(1) == 0x100;
    assert Pow256(2) == 0x1_0000;
    assert Pow256(3) == 0x100_0000;
  }

  /** Byte i of write_le_u16(v) is (v >> 8*i) & 0xFF. */
  lemma EncodeU16Byte(v: u16, i: nat)
    requires i < 2
    ensures EncodeU16(v)[i] == v / Pow256(i) % 0x100
  {
    assert Pow256(1) == 0x100;
  }

  /** Reading the field just written by write_le_u16 gives the written value. */
  lemma ReadAfterPutU16(s: seq<u8>, at: nat, v: u16)
    requires at + 2 <= |s|
    ensures ReadLeU16(PutU16(s, at, v), at) == v
  {
    ReadEncodeU16(v);
  }

  /** Reading the field just written by write_le_u32 gives the written value. */
  lemma ReadAfterPutU32(s: seq<u8>, at: nat, v: u32)
    requires at + 4 <= |s|
    ensures ReadLeU32(PutU32(s, at, v), at) == v
  {
    var r := PutU32(s, at, v);
    assert r[at..at + 4] == EncodeU32(v);
    assert r[at] == EncodeU32(v)[0] && r[at + 1] == EncodeU32(v)[1];
    assert r[at + 2] == EncodeU32(v)[2] && r[at + 3] == EncodeU32(v)[3];
    ReadEncodeU32(v);
  }
}
