/** Fixed-width unsigned integers and their big-endian byte layout, as the
    frame header is read (scroll with `scroll::BE`) and written
    (`u32::to_be_bytes`). */
module Bytes {

  type byte = x: int | 0 <= x < 0x100
  type u16 = x: int | 0 <= x < 0x1_0000
  type u32 = x: int | 0 <= x < 0x1_0000_0000

  const U32_MODULUS: int := 0x1_0000_0000

  /** The big-endian u16 stored at s[i], s[i + 1]. */
  function Be16(s: seq<byte>, i: nat): u16
    requires i + 2 <= |s|
  {
    (s[i] as int) * 0x100 + s[i + 1]
  }

  /** The big-endian u32 stored at s[i .. i + 4]. */
  function Be32(s: seq<byte>, i: nat): u32
    requires i + 4 <= |s|
  {
    (Be16(s, i) as int) * 0x1_0000 + Be16(s, i + 2)
  }

  function U16ToBe(v: u16): (r: seq<byte>)
    ensures |r| == 2
  {
    [v / 0x100, v % 0x100]
  }

  /** `v.to_be_bytes()` for a u32: most significant byte first. */
  function U32ToBe(v: u32): (r: seq<byte>)
    ensures |r| == 4
  {
    U16ToBe(v / 0x1_0000) + U16ToBe(v % 0x1_0000)
  }

  lemma U16RoundTrip(v: u16)
    ensures Be16(U16ToBe(v), 0) == v
  {
  }

  lemma Be16RoundTrip(s: seq<byte>, i: nat)
    requires i + 2 <= |s|
    ensures U16ToBe(Be16(s, i)) == s[i..i + 2]
  {
    var v := Be16(s, i);
    assert v / 0x100 == s[i] && v % 0x100 == s[i + 1];
  }

  /** Encoding a u32 and reading it back gives the same number, and the four
      bytes carry the weights 2^24, 2^16, 2^8 and 1. */
  lemma U32RoundTrip(v: u32)
    ensures Be32(U32ToBe(v), 0) == v
    ensures var r := U32ToBe(v);
      v == (r[0] as int) * 0x100_0000 + (r[1] as int) * 0x1_0000 + (r[2] as int) * 0x100 + r[3]
  {
    var r := U32ToBe(v);
    U16RoundTrip(v / 0x1_0000);
    U16RoundTrip(v % 0x1_0000);
    assert Be16(r, 0) == v / 0x1_0000;
    assert Be16(r, 2) == v % 0x1_0000;
  }

  /** Reading four bytes as a big-endian u32 and encoding it again gives the
      same four bytes. */
  lemma Be32RoundTrip(s: seq<byte>, i: nat)
    requires i + 4 <= |s|
    ensures U32ToBe(Be32(s, i)) == s[i..i + 4]
  {
    var hi, lo := Be16(s, i), Be16(s, i + 2);
    var v := Be32(s, i);
    assert v / 0x1_0000 == hi && v % 0x1_0000 == lo;
    Be16RoundTrip(s, i);
    Be16RoundTrip(s, i + 2);
    assert s[i..i + 4] == s[i..i + 2] + s[i + 2..i + 4];
  }

  /** A string whose characters are all ASCII. */
  predicate IsAscii(s: string)
  {
    forall i :: 0 <= i < |s| ==> s[i] as int < 0x80
  }

  /** The UTF-8 bytes of an ASCII string: one byte per character. */
  function Ascii(s: string): (r: seq<byte>)
    requires IsAscii(s)
    ensures |r| == |s|
    ensures forall i :: 0 <= i < |s| ==> r[i] == s[i] as int
  {
    seq(|s|, i requires 0 <= i < |s| => s[i] as int)
  }
}
