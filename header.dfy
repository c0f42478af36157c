/** The 16-byte frame header: reading it (`pack`), patching an integer into
    a byte buffer (`write_int`) and building an outgoing control frame
    (`encode`). */
module PackHeader {
  import opened Bytes
  import opened Wire

  const HEADER_LEN: nat := 16

  /** `BilibiliPackHeader`: five big-endian fields, 16 bytes in all. */
  datatype Header = Header(packLen: u32, headerLen: u16, ver: u16, op: u32, sequence: u32)

  /** The fields at their fixed offsets 0, 4, 6, 8 and 12. */
  function ParseHeader(s: seq<byte>): Header
    requires |s| >= HEADER_LEN
  {
    Header(Be32(s, 0), Be16(s, 4), Be16(s, 6), Be32(s, 8), Be32(s, 12))
  }

  /** The 16 bytes that hold a header. */
  function HeaderBytes(h: Header): (r: seq<byte>)
    ensures |r| == HEADER_LEN
  {
    U32ToBe(h.packLen) + U16ToBe(h.headerLen) + U16ToBe(h.ver) + U32ToBe(h.op) + U32ToBe(h.sequence)
  }

  lemma ParseHeaderBytes(h: Header)
    ensures ParseHeader(HeaderBytes(h)) == h
  {
    var r := HeaderBytes(h);
    U32RoundTrip(h.packLen);
    U16RoundTrip(h.headerLen);
    U16RoundTrip(h.ver);
    U32RoundTrip(h.op);
    U32RoundTrip(h.sequence);
    assert r[0..4] == U32ToBe(h.packLen);
    assert r[4..6] == U16ToBe(h.headerLen);
    assert r[6..8] == U16ToBe(h.ver);
    assert r[8..12] == U32ToBe(h.op);
    assert r[12..16] == U32ToBe(h.sequence);
  }

  lemma HeaderBytesParse(s: seq<byte>)
    requires |s| >= HEADER_LEN
    ensures HeaderBytes(ParseHeader(s)) == s[..HEADER_LEN]
  {
    Be32RoundTrip(s, 0);
    Be16RoundTrip(s, 4);
    Be16RoundTrip(s, 6);
    Be32RoundTrip(s, 8);
    Be32RoundTrip(s, 12);
    assert s[..16] == s[0..4] + s[4..6] + s[6..8] + s[8..12] + s[12..16];
  }

  /** Only the first 16 bytes decide the header. */
  lemma ParseHeaderPrefix(s: seq<byte>, t: seq<byte>)
    requires |s| >= HEADER_LEN && |t| >= HEADER_LEN && s[..HEADER_LEN] == t[..HEADER_LEN]
    ensures ParseHeader(s) == ParseHeader(t)
  {
    assert forall i :: 0 <= i < HEADER_LEN ==> s[i] == s[..HEADER_LEN][i] && t[i] == t[..HEADER_LEN][i];
  }

  /** `pack`: read the header from the front of the buffer and return it with
      the rest of the buffer. Fails only when there are fewer than 16 bytes;
      the declared length is not checked against the buffer. */
  function Pack(buffer: seq<byte>): (r: Result<(Header, seq<byte>)>)
    ensures r.Ok? <==> |buffer| >= HEADER_LEN
    ensures r.Err? ==> r.error == Truncated
    ensures r.Ok? ==> r.value.1 == buffer[HEADER_LEN..]
  {
    if |buffer| < HEADER_LEN then Err(Truncated) else Ok((ParseHeader(buffer), buffer[HEADER_LEN..]))
  }

  /** What `pack` reads is exactly the header the first 16 bytes hold. */
  lemma PackLayout(buffer: seq<byte>)
    requires |buffer| >= HEADER_LEN
    ensures Pack(buffer).Ok? && HeaderBytes(Pack(buffer).value.0) == buffer[..HEADER_LEN]
  {
    HeaderBytesParse(buffer);
  }

  /** The buffer with `val` written big-endian over bytes start .. start + 4. */
  function Patched(buffer: seq<byte>, start: nat, val: u32): (r: seq<byte>)
    requires start + 4 <= |buffer|
    ensures |r| == |buffer|
    ensures r[start..start + 4] == U32ToBe(val)
    ensures forall j :: 0 <= j < |buffer| && !(start <= j < start + 4) ==> r[j] == buffer[j]
  {
    buffer[..start] + U32ToBe(val) + buffer[start + 4..]
  }

  /** `write_int`: copy the buffer, then overwrite four bytes one at a time.
      The source indexes past the end (and panics) unless start + 4 fits. */
  method WriteInt(buffer: seq<byte>, start: nat, val: u32) returns (buf: seq<byte>)
    requires start + 4 <= |buffer|
    ensures buf == Patched(buffer, start, val)
  {
    var valBytes := U32ToBe(val);
    buf := buffer;
    for i := 0 to 4
      invariant |buf| == |buffer|
      invariant forall j :: 0 <= j < |buf| ==>
        buf[j] == if start <= j < start + i then valBytes[j - start] else buffer[j]
    {
      buf := buf[start + i := valBytes[i]];
    }
    var want := Patched(buffer, start, val);
    assert forall j :: 0 <= j < |buf| ==> buf[j] == want[j] by {
      forall j | 0 <= j < |buf| ensures buf[j] == want[j] {
        if start <= j < start + 4 {
          assert want[j] == want[start..start + 4][j - start];
        }
      }
    }
  }

  /** The header template of `encode`: length 0 (patched later), header
      length 16, version 1, the operation code in the last byte of the op
      field, sequence 1. */
  function Template(op: byte): seq<byte>
  {
    [0, 0, 0, 0, 0, 16, 0, 1, 0, 0, 0, op, 0, 0, 0, 1]
  }

  /** `encode`: the template with the frame length patched in, followed by the
      message bytes. `packet_len as u32` keeps the low 32 bits of the length. */
  function Encode(s: seq<byte>, op: byte): (r: seq<byte>)
    ensures |r| == HEADER_LEN + |s|
    ensures r[HEADER_LEN..] == s
  {
    Patched(Template(op), 0, (HEADER_LEN + |s|) % U32_MODULUS) + s
  }

  /** Reading back an encoded frame gives the header `encode` promises and the
      message as the body. */
  lemma EncodeParses(s: seq<byte>, op: byte)
    ensures Pack(Encode(s, op)) == Ok((Header((HEADER_LEN + |s|) % U32_MODULUS, 16, 1, op, 1), s))
    ensures HEADER_LEN + |s| < U32_MODULUS ==> ParseHeader(Encode(s, op)).packLen == HEADER_LEN + |s|
  {
    var len := (HEADER_LEN + |s|) % U32_MODULUS;
    var r := Encode(s, op);
    var hdr := Patched(Template(op), 0, len);
    assert r[..HEADER_LEN] == hdr;
    U32RoundTrip(len);
    assert hdr[0..4] == U32ToBe(len);
    assert Be32(r, 0) == Be32(hdr[0..4], 0);
    assert Be16(r, 4) == 16 && Be16(r, 6) == 1;
    assert Be32(r, 8) == op && Be32(r, 12) == 1;
  }
}
