/** `decode` and `build_pack`: strip compression by re-reading the outer
    body, then dispatch on the final version tag to the splitter (0) or the
    hot-count reader (1). */
module Decoder {
  import opened Bytes
  import opened Decimal
  import opened Wire
  import opened PackHeader
  import opened Splitter

  const PLAIN: u16 := 0
  const HOT_COUNT: u16 := 1
  const ZLIB: u16 := 2
  const BROTLI: u16 := 3

  predicate Compressed(ver: u16)
  {
    ver == ZLIB || ver == BROTLI
  }

  /** `zlib_decode`: inflate the stream to its end, then read a frame header
      from the front of what came out. */
  function ZlibDecode(libs: Libraries, body: seq<byte>): (r: Result<(Header, seq<byte>)>)
    ensures libs.inflate(body).None? ==> r == Err(DecompressFailed)
    ensures libs.inflate(body).Some? ==> r == Pack(libs.inflate(body).value)
  {
    match libs.inflate(body)
    case None => Err(DecompressFailed)
    case Some(raw) => Pack(raw)
  }

  /** `brotli_decode`: the same with the Brotli decompressor. */
  function BrotliDecode(libs: Libraries, body: seq<byte>): (r: Result<(Header, seq<byte>)>)
    ensures libs.unbrotli(body).None? ==> r == Err(DecompressFailed)
    ensures libs.unbrotli(body).Some? ==> r == Pack(libs.unbrotli(body).value)
  {
    match libs.unbrotli(body)
    case None => Err(DecompressFailed)
    case Some(raw) => Pack(raw)
  }

  /** One round of the loop for a compressed tag. It reads the ORIGINAL outer
      body, whatever the previous round produced. */
  function Round(libs: Libraries, body: seq<byte>, ver: u16): Result<(Header, seq<byte>)>
    requires Compressed(ver)
  {
    if ver == ZLIB then ZlibDecode(libs, body) else BrotliDecode(libs, body)
  }

  /** Where the source's `loop` stands after at most `fuel` rounds: it has
      left through `break` with a header and buffer, a round has returned an
      error, or it is still going with a compressed tag. */
  datatype LoopState =
    | Exit(header: Header, buf: seq<byte>)
    | Failed(error: Error)
    | Looping(header: Header, buf: seq<byte>)

  /** The source's `loop`, run for at most `fuel` rounds from header `h` and
      buffer `buf`, decompressing the outer `body` in every round. */
  function Loop(libs: Libraries, body: seq<byte>, h: Header, buf: seq<byte>, fuel: nat): (st: LoopState)
    ensures st.Exit? ==> !Compressed(st.header.ver)
    ensures st.Looping? ==> Compressed(st.header.ver)
    ensures !Compressed(h.ver) ==> st == Exit(h, buf)
    decreases fuel
  {
    if !Compressed(h.ver) then Exit(h, buf)
    else if fuel == 0 then Looping(h, buf)
    else match Round(libs, body, h.ver)
      case Err(e) => Failed(e)
      case Ok((h', buf')) => Loop(libs, body, h', buf', fuel - 1)
  }

  /** `get_hot_count`: the big-endian u32 at offset 0 of the body. */
  function GetHotCount(body: seq<byte>): (r: Result<u32>)
    ensures r.Ok? <==> |body| >= 4
    ensures r.Err? ==> r.error == Truncated
    ensures r.Ok? ==> U32ToBe(r.value) == body[..4]
  {
    if |body| < 4 then Err(Truncated)
    else
      Be32RoundTrip(body, 0);
      Ok(Be32(body, 0))
  }

  function CountText(n: nat): (s: string)
  {
    "{\"count\": " + NatToString(n) + "}"
  }

  /** The message `format!("{{\"count\": {}}}", n)` builds: ASCII bytes. */
  function CountMessage(n: nat): (m: Msg)
    ensures |m| == |CountText(n)|
    ensures forall i :: 0 <= i < |m| ==> m[i] == CountText(n)[i] as int
  {
    var s := CountText(n);
    assert IsAscii(s) by {
      var d := NatToString(n);
      forall i | 0 <= i < |s| ensures s[i] as int < 0x80 {
        if 10 <= i < 10 + |d| { assert s[i] == d[i - 10]; }
      }
    }
    Ascii(s)
  }

  /** The `match` after the loop: dispatch on the final tag. */
  function Dispatch(libs: Libraries, h: Header, buf: seq<byte>): (r: Outcome<seq<Msg>>)
    ensures h.ver == PLAIN ==> r == Split(libs.validUtf8, buf, h)
    ensures h.ver == HOT_COUNT && |buf| < 4 ==> r == Returns(Err(Truncated))
    ensures h.ver == HOT_COUNT && |buf| >= 4 ==> r == Returns(Ok([CountMessage(Be32(buf, 0))]))
    ensures h.ver != PLAIN && h.ver != HOT_COUNT ==> r == Returns(Err(UnsupportProto(NatToString(h.ver))))
  {
    match h.ver
    case 0 => Split(libs.validUtf8, buf, h)
    case 1 =>
      (match GetHotCount(buf)
       case Err(e) => Returns(Err(e))
       case Ok(n) => Returns(Ok([CountMessage(n)])))
    case x => Returns(Err(UnsupportProto(NatToString(x))))
  }

  /** The verdict once the loop's state is known. */
  function Finish(libs: Libraries, st: LoopState): Outcome<seq<Msg>>
  {
    match st
    case Exit(h, buf) => Dispatch(libs, h, buf)
    case Failed(e) => Returns(Err(e))
    case Looping(_, _) => Diverges
  }

  /** Two rounds decide the loop: see `LoopSettles` and `LoopNeverExits`. */
  const ROUNDS: nat := 2

  /** What `decode` does with a header and its body. */
  function DecodeResult(libs: Libraries, header: Header, body: seq<byte>): Outcome<seq<Msg>>
  {
    Finish(libs, Loop(libs, body, header, body, ROUNDS))
  }

  /** What `build_pack` does with a raw buffer. */
  function BuildPackResult(libs: Libraries, buf: seq<byte>): Outcome<seq<Msg>>
  {
    match Pack(buf)
    case Err(e) => Returns(Err(e))
    case Ok((h, body)) => DecodeResult(libs, h, body)
  }

  /** `decode`: the loop reassigns the header/buffer pair until the tag is no
      longer compressed. The source has no bound on the rounds; after two
      rounds that still end on a compressed tag it never leaves the loop
      (`LoopNeverExits`), and this method then reports `Diverges`. */
  method Decode(libs: Libraries, header: Header, body: seq<byte>) returns (r: Outcome<seq<Msg>>)
    ensures r == DecodeResult(libs, header, body)
  {
    var h := header;
    var buf := body;
    var rounds: nat := 0;
    while Compressed(h.ver)
      invariant rounds <= ROUNDS
      invariant Loop(libs, body, header, body, ROUNDS) == Loop(libs, body, h, buf, ROUNDS - rounds)
      decreases ROUNDS - rounds
    {
      if rounds == ROUNDS {
        return Diverges;
      }
      var next := if h.ver == ZLIB then ZlibDecode(libs, body) else BrotliDecode(libs, body);
      if next.Err? {
        return Returns(Err(next.error));
      }
      h, buf := next.value.0, next.value.1;
      rounds := rounds + 1;
    }
    match h.ver
    case 0 =>
      r := SplitMsgs(libs.validUtf8, buf, h);
    case 1 =>
      var count := GetHotCount(buf);
      if count.Err? {
        return Returns(Err(count.error));
      }
      r := Returns(Ok([CountMessage(count.value)]));
    case x =>
      r := Returns(Err(UnsupportProto(NatToString(x))));
  }

  /** `build_pack`: read the outer header, then decode its body. A buffer
      shorter than a header is refused before anything else is looked at. */
  method BuildPack(libs: Libraries, buf: seq<byte>) returns (r: Outcome<seq<Msg>>)
    ensures |buf| < HEADER_LEN ==> r == Returns(Err(Truncated))
    ensures |buf| >= HEADER_LEN ==> r == DecodeResult(libs, ParseHeader(buf), buf[HEADER_LEN..])
    ensures r == BuildPackResult(libs, buf)
  {
    var ctx := Pack(buf);
    if ctx.Err? {
      return Returns(Err(ctx.error));
    }
    r := Decode(libs, ctx.value.0, ctx.value.1);
  }

  /** After a compressed round the state depends only on the outer body and
      the tag: the header's other fields and the current buffer play no part. */
  lemma LoopForgetsBuffer(libs: Libraries, body: seq<byte>, h1: Header, b1: seq<byte>,
                          h2: Header, b2: seq<byte>, fuel: nat)
    requires fuel >= 1 && Compressed(h1.ver) && h1.ver == h2.ver
    ensures Loop(libs, body, h1, b1, fuel) == Loop(libs, body, h2, b2, fuel)
  {
  }

  /** Once the loop has stopped within k rounds, more rounds change nothing. */
  lemma {:induction false} LoopSettles(libs: Libraries, body: seq<byte>, h: Header, buf: seq<byte>, k: nat, n: nat)
    requires k <= n && !Loop(libs, body, h, buf, k).Looping?
    ensures Loop(libs, body, h, buf, n) == Loop(libs, body, h, buf, k)
    decreases k
  {
    if Compressed(h.ver) {
      match Round(libs, body, h.ver)
      case Err(e) =>
      case Ok((h', buf')) => LoopSettles(libs, body, h', buf', k - 1, n - 1);
    }
  }

  /** A set of compressed tags that the rounds never leave. */
  predicate ClosedUnderRounds(libs: Libraries, body: seq<byte>, tags: set<u16>)
  {
    forall t :: t in tags ==> Compressed(t) && Round(libs, body, t).Ok? && Round(libs, body, t).value.0.ver in tags
  }

  lemma {:induction false} LoopStaysInCycle(libs: Libraries, body: seq<byte>, tags: set<u16>,
                                            h: Header, buf: seq<byte>, n: nat)
    requires ClosedUnderRounds(libs, body, tags) && h.ver in tags
    ensures Loop(libs, body, h, buf, n).Looping?
    decreases n
  {
    if n > 0 {
      var next := Round(libs, body, h.ver);
      LoopStaysInCycle(libs, body, tags, next.value.0, next.value.1, n - 1);
    }
  }

  /** If two rounds still end on a compressed tag, no number of rounds ends
      the loop: the source never returns. Each round restarts from the same
      outer body, so the tags repeat. */
  lemma LoopNeverExits(libs: Libraries, body: seq<byte>, h: Header, buf: seq<byte>)
    requires Loop(libs, body, h, buf, ROUNDS).Looping?
    ensures forall n: nat :: Loop(libs, body, h, buf, n).Looping?
  {
    var r1 := Round(libs, body, h.ver);
    var h1 := r1.value.0;
    var r2 := Round(libs, body, h1.ver);
    var h2 := r2.value.0;
    assert Compressed(h2.ver);
    var tags := {h.ver, h1.ver};
    assert h2.ver in tags;
    assert ClosedUnderRounds(libs, body, tags);
    forall n: nat ensures Loop(libs, body, h, buf, n).Looping? {
      LoopStaysInCycle(libs, body, tags, h, buf, n);
    }
  }

  /** `decode` reaches its verdict within two rounds: with any larger budget
      the loop ends the same way, and it diverges exactly when no budget ends
      it. */
  lemma DecodeMatchesLoop(libs: Libraries, header: Header, body: seq<byte>, n: nat)
    requires n >= ROUNDS
    ensures Finish(libs, Loop(libs, body, header, body, n)) == DecodeResult(libs, header, body)
    ensures DecodeResult(libs, header, body) == Diverges <==>
      forall k: nat :: Loop(libs, body, header, body, k).Looping?
  {
    if Loop(libs, body, header, body, ROUNDS).Looping? {
      LoopNeverExits(libs, body, header, body);
    } else {
      LoopSettles(libs, body, header, body, ROUNDS, n);
      assert !Loop(libs, body, header, body, ROUNDS).Looping?;
    }
  }

  /** A frame that is not compressed goes straight to the dispatch, and a
      tag outside {0, 1, 2, 3} is refused with its decimal value. */
  lemma DecodeUncompressed(libs: Libraries, header: Header, body: seq<byte>)
    requires !Compressed(header.ver)
    ensures DecodeResult(libs, header, body) == Dispatch(libs, header, body)
    ensures header.ver > BROTLI ==>
      DecodeResult(libs, header, body) == Returns(Err(UnsupportProto(NatToString(header.ver))))
  {
  }

  /** One layer of compression: the decompressed frame's header and body are
      dispatched when its tag is not compressed again. */
  lemma DecodeOneLayer(libs: Libraries, header: Header, body: seq<byte>, raw: seq<byte>)
    requires Compressed(header.ver)
    requires (if header.ver == ZLIB then libs.inflate(body) else libs.unbrotli(body)) == Some(raw)
    requires |raw| >= HEADER_LEN && !Compressed(ParseHeader(raw).ver)
    ensures DecodeResult(libs, header, body) == Dispatch(libs, ParseHeader(raw), raw[HEADER_LEN..])
  {
    assert Round(libs, body, header.ver) == Ok((ParseHeader(raw), raw[HEADER_LEN..]));
  }

  /** A decompressed frame tagged compressed again sends the loop round the
      same outer body forever. */
  lemma DecodeNestedDiverges(libs: Libraries, header: Header, body: seq<byte>, raw: seq<byte>)
    requires Compressed(header.ver)
    requires (if header.ver == ZLIB then libs.inflate(body) else libs.unbrotli(body)) == Some(raw)
    requires |raw| >= HEADER_LEN && ParseHeader(raw).ver == header.ver
    ensures DecodeResult(libs, header, body) == Diverges
  {
    var h1 := ParseHeader(raw);
    assert Round(libs, body, header.ver) == Ok((h1, raw[HEADER_LEN..]));
    assert Round(libs, body, h1.ver) == Ok((h1, raw[HEADER_LEN..]));
  }

  /** Decompression failure and a decompressed stream too short for a header
      are the errors of the first round. */
  lemma DecodeRoundErrors(libs: Libraries, header: Header, body: seq<byte>)
    requires Compressed(header.ver)
    ensures var out := if header.ver == ZLIB then libs.inflate(body) else libs.unbrotli(body);
      (out.None? ==> DecodeResult(libs, header, body) == Returns(Err(DecompressFailed))) &&
      (out.Some? && |out.value| < HEADER_LEN ==> DecodeResult(libs, header, body) == Returns(Err(Truncated)))
  {
  }
}
