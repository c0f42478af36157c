/** End-to-end laws of the codec: what `build_pack` gives for frames that
    `encode` builds and for well-formed plain and compressed frames. */
module CodecLaws {
  import opened Bytes
  import opened Decimal
  import opened Wire
  import opened PackHeader
  import opened Splitter
  import opened Decoder

  /** `encode` marks its frames with version 1, so decoding one does not give
      the message back: the first four message bytes are read as a hot count,
      and a message shorter than that is refused. */
  lemma EncodeDecodesAsHotCount(libs: Libraries, s: seq<byte>, op: byte)
    ensures |s| >= 4 ==> BuildPackResult(libs, Encode(s, op)) == Returns(Ok([CountMessage(Be32(s, 0))]))
    ensures |s| < 4 ==> BuildPackResult(libs, Encode(s, op)) == Returns(Err(Truncated))
  {
    EncodeParses(s, op);
    var f := Encode(s, op);
    assert Pack(f) == Ok((Header((HEADER_LEN + |s|) % U32_MODULUS, 16, 1, op, 1), s));
  }

  /** A plain frame whose body is its own payload followed by well-formed
      sub-frames decodes to all the payloads, in order. */
  lemma PlainFramesRoundTrip(libs: Libraries, h: Header, m: Msg, hdrs: seq<Header>, ms: seq<Msg>)
    requires h.ver == PLAIN && h.packLen == HEADER_LEN + |m| && libs.validUtf8(m)
    requires WellFramed(hdrs, ms) && AllValid(libs.validUtf8, ms)
    ensures BuildPackResult(libs, HeaderBytes(h) + (m + Join(hdrs, ms))) == Returns(Ok([m] + ms))
  {
    var f := HeaderBytes(h) + (m + Join(hdrs, ms));
    assert f[..HEADER_LEN] == HeaderBytes(h) && f[HEADER_LEN..] == m + Join(hdrs, ms);
    ParseHeaderBytes(h);
    ParseHeaderPrefix(f, HeaderBytes(h));
    SplitOfFrames(libs.validUtf8, h, m, hdrs, ms);
  }

  /** A compressed frame whose decompressed body is a plain frame, as above,
      decodes to the same payloads. */
  lemma CompressedFramesRoundTrip(libs: Libraries, outer: Header, body: seq<byte>,
                                  h: Header, m: Msg, hdrs: seq<Header>, ms: seq<Msg>)
    requires Compressed(outer.ver)
    requires h.ver == PLAIN && h.packLen == HEADER_LEN + |m| && libs.validUtf8(m)
    requires WellFramed(hdrs, ms) && AllValid(libs.validUtf8, ms)
    requires (if outer.ver == ZLIB then libs.inflate(body) else libs.unbrotli(body))
      == Some(HeaderBytes(h) + (m + Join(hdrs, ms)))
    ensures DecodeResult(libs, outer, body) == Returns(Ok([m] + ms))
  {
    var raw := HeaderBytes(h) + (m + Join(hdrs, ms));
    assert raw[..HEADER_LEN] == HeaderBytes(h) && raw[HEADER_LEN..] == m + Join(hdrs, ms);
    ParseHeaderBytes(h);
    ParseHeaderPrefix(raw, HeaderBytes(h));
    DecodeOneLayer(libs, outer, body, raw);
    SplitOfFrames(libs.validUtf8, h, m, hdrs, ms);
  }

  /** Every successful decode of a plain outer frame read exactly such a
      frame: its messages are its payloads, in the order they stand. */
  lemma PlainDecodeParses(libs: Libraries, f: seq<byte>) returns (hdrs: seq<Header>)
    requires |f| >= HEADER_LEN && ParseHeader(f).ver == PLAIN
    requires BuildPackResult(libs, f).Returns? && BuildPackResult(libs, f).result.Ok?
    ensures var ms := BuildPackResult(libs, f).result.value;
      |ms| >= 1 && AllValid(libs.validUtf8, ms) && ParseHeader(f).packLen == HEADER_LEN + |ms[0]| &&
      WellFramed(hdrs, ms[1..]) && f[HEADER_LEN..] == ms[0] + Join(hdrs, ms[1..])
  {
    var h := ParseHeader(f);
    assert BuildPackResult(libs, f) == Split(libs.validUtf8, f[HEADER_LEN..], h);
    hdrs := SplitParse(libs.validUtf8, f[HEADER_LEN..], h, BuildPackResult(libs, f).result.value);
  }

  /** A hot-count frame whose body is the big-endian number 5. */
  lemma HotCountFive(libs: Libraries, op: u32, sequence: u32)
    ensures BuildPackResult(libs, HeaderBytes(Header(20, 16, HOT_COUNT, op, sequence)) + [0, 0, 0, 5])
      == Returns(Ok([Ascii("{\"count\": 5}")]))
  {
    var h := Header(20, 16, HOT_COUNT, op, sequence);
    var f := HeaderBytes(h) + [0, 0, 0, 5];
    assert f[..HEADER_LEN] == HeaderBytes(h) && f[HEADER_LEN..] == [0, 0, 0, 5];
    ParseHeaderBytes(h);
    ParseHeaderPrefix(f, HeaderBytes(h));
    assert Be32(f[HEADER_LEN..], 0) == 5;
    assert NatToString(5) == "5";
    assert CountText(5) == "{\"count\": 5}";
  }

  /** A frame tagged 9 is refused with the text "9". */
  lemma VersionNineUnsupported(libs: Libraries, f: seq<byte>)
    requires |f| >= HEADER_LEN && ParseHeader(f).ver == 9
    ensures BuildPackResult(libs, f) == Returns(Err(UnsupportProto("9")))
  {
    assert NatToString(9) == "9";
  }
}
