/** `split_msgs`: cut a plain-text body into the payloads of its frames. The
    first payload is the first pack_len - 16 bytes of the body (its header
    was read before the body was handed over); every later one follows a
    16-byte sub-header of its own and reaches pack_len - 16 bytes. */
module Splitter {
  import opened Bytes
  import opened Wire
  import opened PackHeader

  /** Messages in front of whatever the rest of the walk produced. */
  function PrependAll(ms: seq<Msg>, rest: Outcome<seq<Msg>>): Outcome<seq<Msg>>
  {
    match rest
    case Returns(Ok(more)) => Returns(Ok(ms + more))
    case _ => rest
  }

  lemma PrependAllOk(ms: seq<Msg>, rest: Outcome<seq<Msg>>)
    requires PrependAll(ms, rest).Returns? && PrependAll(ms, rest).result.Ok?
    ensures rest.Returns? && rest.result.Ok?
    ensures PrependAll(ms, rest).result.value == ms + rest.result.value
  {
  }

  lemma PrependAllAssoc(ms: seq<Msg>, m: Msg, rest: Outcome<seq<Msg>>)
    ensures PrependAll(ms + [m], rest) == PrependAll(ms, PrependAll([m], rest))
  {
    if rest.Returns? && rest.result.Ok? {
      assert ms + [m] + rest.result.value == ms + ([m] + rest.result.value);
    }
  }

  /** Whether a frame declaring `packLen` has its payload inside `buf`: the
      source's `pack_len - 16` fails below 16 (u32 underflow) and its slice
      fails past the end. Either way it panics. */
  predicate PayloadFits(packLen: u32, buf: seq<byte>)
  {
    packLen >= HEADER_LEN && packLen - HEADER_LEN <= |buf|
  }

  /** What one round of the sub-frame loop makes of the bytes left: too few
      for a header, a payload that does not fit, or a header, its payload and
      the bytes after it. */
  datatype Cut = Short | Overrun | Piece(header: Header, payload: Msg, tail: seq<byte>)

  /** `pack(&buf)?`, then the slices `buf[..pack_len - 16]` and
      `buf[pack_len - 16..]`. */
  function NextFrame(rest: seq<byte>): (c: Cut)
    ensures c.Short? <==> |rest| < HEADER_LEN
    ensures c.Piece? ==> |c.tail| + HEADER_LEN + |c.payload| == |rest|
  {
    match Pack(rest)
    case Err(_) => Short
    case Ok((h, body)) =>
      if !PayloadFits(h.packLen, body) then Overrun
      else Piece(h, body[..h.packLen - HEADER_LEN], body[h.packLen - HEADER_LEN..])
  }

  /** A cut piece is exactly a header declaring the payload's length, the
      payload and the tail, laid end to end. */
  lemma NextFrameLayout(rest: seq<byte>)
    requires NextFrame(rest).Piece?
    ensures var c := NextFrame(rest);
      c.header.packLen == HEADER_LEN + |c.payload| && rest == HeaderBytes(c.header) + c.payload + c.tail
  {
    var c := NextFrame(rest);
    HeaderBytesParse(rest);
    assert rest[HEADER_LEN..] == c.payload + c.tail;
    assert rest == rest[..HEADER_LEN] + rest[HEADER_LEN..];
  }

  /** Conversely, a header declaring the payload's length in front of that
      payload is cut back into the same header, payload and tail. */
  lemma NextFrameOfBytes(h: Header, m: Msg, tail: seq<byte>)
    requires h.packLen == HEADER_LEN + |m|
    ensures NextFrame(HeaderBytes(h) + m + tail) == Piece(h, m, tail)
  {
    var rest := HeaderBytes(h) + m + tail;
    ParseHeaderBytes(h);
    assert rest[..HEADER_LEN] == HeaderBytes(h);
    ParseHeaderPrefix(rest, HeaderBytes(h));
    var body := rest[HEADER_LEN..];
    assert body == m + tail;
    assert body[..|m|] == m && body[|m|..] == tail;
  }

  /** The walk over the sub-frames after the first payload, until nothing is
      left. */
  function SubFrames(valid: seq<byte> -> bool, rest: seq<byte>): (r: Outcome<seq<Msg>>)
    ensures !r.Diverges?
    decreases |rest|
  {
    if |rest| == 0 then Returns(Ok([]))
    else match NextFrame(rest)
      case Short => Returns(Err(Truncated))
      case Overrun => Panics
      case Piece(_, m, tail) =>
        if !valid(m) then Returns(Err(InvalidUtf8))
        else PrependAll([m], SubFrames(valid, tail))
  }

  /** The whole of `split_msgs` on a body and the header it came with. */
  function Split(valid: seq<byte> -> bool, buf: seq<byte>, header: Header): Outcome<seq<Msg>>
  {
    if !PayloadFits(header.packLen, buf) then Panics
    else
      var n := header.packLen - HEADER_LEN;
      if !valid(buf[..n]) then Returns(Err(InvalidUtf8))
      else PrependAll([buf[..n]], SubFrames(valid, buf[n..]))
  }

  /** The first payload, cut by the given header, in front of the walk over
      what follows it. */
  lemma SplitFront(valid: seq<byte> -> bool, buf: seq<byte>, header: Header)
    requires PayloadFits(header.packLen, buf) && valid(buf[..header.packLen - HEADER_LEN])
    ensures var n := header.packLen - HEADER_LEN;
      Split(valid, buf, header) == PrependAll([buf[..n]], SubFrames(valid, buf[n..]))
  {
  }

  /** One round of the sub-frame loop in terms of the walk. */
  lemma SubFramesRound(valid: seq<byte> -> bool, buf: seq<byte>)
    requires |buf| > 0
    ensures NextFrame(buf).Short? ==> SubFrames(valid, buf) == Returns(Err(Truncated))
    ensures NextFrame(buf).Overrun? ==> SubFrames(valid, buf) == Panics
    ensures NextFrame(buf).Piece? && !valid(NextFrame(buf).payload) ==>
      SubFrames(valid, buf) == Returns(Err(InvalidUtf8))
    ensures NextFrame(buf).Piece? && valid(NextFrame(buf).payload) ==>
      SubFrames(valid, buf) == PrependAll([NextFrame(buf).payload], SubFrames(valid, NextFrame(buf).tail))
  {
  }

  /** `split_msgs` as the source runs it: a cursor `offset` that counts the
      bytes consumed, and `buf` re-sliced past each frame. */
  method SplitMsgs(valid: seq<byte> -> bool, body: seq<byte>, header: Header) returns (r: Outcome<seq<Msg>>)
    ensures r == Split(valid, body, header)
  {
    ghost var goal := Split(valid, body, header);
    var buf := body;
    var h := header;
    var msgs: seq<Msg>;
    var offset: nat := 0;
    var bufLen := |buf|;

    if !PayloadFits(h.packLen, buf) {
      return Panics;
    }
    var first := buf[..h.packLen - HEADER_LEN];
    if !valid(first) {
      return Returns(Err(InvalidUtf8));
    }
    SplitFront(valid, buf, h);
    msgs := [first];
    buf := buf[h.packLen - HEADER_LEN..];
    offset := offset + (h.packLen - HEADER_LEN);

    while offset != bufLen
      invariant offset + |buf| == bufLen
      invariant goal == PrependAll(msgs, SubFrames(valid, buf))
      decreases |buf|
    {
      ghost var cut := NextFrame(buf);
      SubFramesRound(valid, buf);
      var ctx := Pack(buf);
      if ctx.Err? {
        return Returns(Err(ctx.error));
      }
      h, buf := ctx.value.0, ctx.value.1;
      if !PayloadFits(h.packLen, buf) {
        return Panics;
      }
      var m := buf[..h.packLen - HEADER_LEN];
      if !valid(m) {
        return Returns(Err(InvalidUtf8));
      }
      var tail := buf[h.packLen - HEADER_LEN..];
      assert cut == Piece(h, m, tail);
      PrependAllAssoc(msgs, m, SubFrames(valid, tail));
      msgs := msgs + [m];
      buf := tail;
      offset := offset + h.packLen;
    }
    assert SubFrames(valid, buf) == Returns(Ok([]));
    assert msgs + [] == msgs;
    r := Returns(Ok(msgs));
  }

  /** Frames laid end to end: each header's 16 bytes, then its payload. */
  function Join(hdrs: seq<Header>, ms: seq<Msg>): seq<byte>
    requires |hdrs| == |ms|
  {
    if ms == [] then [] else HeaderBytes(hdrs[0]) + ms[0] + Join(hdrs[1..], ms[1..])
  }

  /** Every header declares the length of its own frame. */
  predicate WellFramed(hdrs: seq<Header>, ms: seq<Msg>)
  {
    |hdrs| == |ms| && forall i :: 0 <= i < |ms| ==> hdrs[i].packLen == HEADER_LEN + |ms[i]|
  }

  predicate AllValid(valid: seq<byte> -> bool, ms: seq<Msg>)
  {
    forall i :: 0 <= i < |ms| ==> valid(ms[i])
  }

  lemma FramedCons(valid: seq<byte> -> bool, h: Header, hdrs: seq<Header>, ms: seq<Msg>)
    requires |ms| >= 1 && h.packLen == HEADER_LEN + |ms[0]| && valid(ms[0])
    ensures WellFramed([h] + hdrs, ms) && AllValid(valid, ms) <==>
      WellFramed(hdrs, ms[1..]) && AllValid(valid, ms[1..])
  {
    var hs := [h] + hdrs;
    assert forall i :: 0 < i < |hs| ==> hs[i] == hdrs[i - 1];
    assert forall i :: 0 < i < |ms| ==> ms[i] == ms[1..][i - 1];
  }

  /** Concatenated well-formed sub-frames give back their payloads, in order,
      one message per frame. */
  lemma {:induction false} SubFramesOfJoin(valid: seq<byte> -> bool, hdrs: seq<Header>, ms: seq<Msg>)
    requires WellFramed(hdrs, ms) && AllValid(valid, ms)
    ensures SubFrames(valid, Join(hdrs, ms)) == Returns(Ok(ms))
    decreases |ms|
  {
    if ms != [] {
      FramedCons(valid, hdrs[0], hdrs[1..], ms);
      assert [hdrs[0]] + hdrs[1..] == hdrs;
      SubFramesOfJoin(valid, hdrs[1..], ms[1..]);
      NextFrameOfBytes(hdrs[0], ms[0], Join(hdrs[1..], ms[1..]));
      assert [ms[0]] + ms[1..] == ms;
    }
  }

  /** Conversely, a walk that returns messages has read a concatenation of
      well-formed frames carrying exactly those messages. */
  lemma {:induction false} SubFramesParse(valid: seq<byte> -> bool, rest: seq<byte>, ms: seq<Msg>)
    returns (hdrs: seq<Header>)
    requires SubFrames(valid, rest) == Returns(Ok(ms))
    ensures WellFramed(hdrs, ms) && AllValid(valid, ms) && rest == Join(hdrs, ms)
    decreases |rest|
  {
    if |rest| == 0 {
      hdrs := [];
    } else {
      var c := NextFrame(rest);
      PrependAllOk([c.payload], SubFrames(valid, c.tail));
      assert ms == [c.payload] + ms[1..];
      NextFrameLayout(rest);
      var more := SubFramesParse(valid, c.tail, ms[1..]);
      hdrs := [c.header] + more;
      FramedCons(valid, c.header, more, ms);
      assert hdrs[1..] == more;
    }
  }

  /** The first payload is cut by the given header, the rest are sub-frames:
      a body made that way splits into exactly its payloads. */
  lemma SplitOfFrames(valid: seq<byte> -> bool, header: Header, m: Msg, hdrs: seq<Header>, ms: seq<Msg>)
    requires header.packLen == HEADER_LEN + |m| && valid(m)
    requires WellFramed(hdrs, ms) && AllValid(valid, ms)
    ensures Split(valid, m + Join(hdrs, ms), header) == Returns(Ok([m] + ms))
  {
    var body := m + Join(hdrs, ms);
    assert body[..|m|] == m && body[|m|..] == Join(hdrs, ms);
    SubFramesOfJoin(valid, hdrs, ms);
  }

  /** A split that returns messages took a first payload that fits and is
      valid, then a walk over the rest that returned the others. */
  lemma SplitOk(valid: seq<byte> -> bool, body: seq<byte>, header: Header, ms: seq<Msg>)
    requires Split(valid, body, header) == Returns(Ok(ms))
    ensures PayloadFits(header.packLen, body) && |ms| >= 1
    ensures ms[0] == body[..header.packLen - HEADER_LEN] && valid(ms[0])
    ensures SubFrames(valid, body[header.packLen - HEADER_LEN..]) == Returns(Ok(ms[1..]))
  {
    var n := header.packLen - HEADER_LEN;
    PrependAllOk([body[..n]], SubFrames(valid, body[n..]));
    assert ms == [body[..n]] + ms[1..];
  }

  /** Conversely, a split that returns messages returns at least one, the
      first is the front of the body the header declares, and the remainder
      of the body is well-formed sub-frames carrying the others. */
  lemma SplitParse(valid: seq<byte> -> bool, body: seq<byte>, header: Header, ms: seq<Msg>)
    returns (hdrs: seq<Header>)
    requires Split(valid, body, header) == Returns(Ok(ms))
    ensures |ms| >= 1 && header.packLen == HEADER_LEN + |ms[0]| && AllValid(valid, ms)
    ensures WellFramed(hdrs, ms[1..]) && body == ms[0] + Join(hdrs, ms[1..])
  {
    SplitOk(valid, body, header, ms);
    var n := header.packLen - HEADER_LEN;
    hdrs := SubFramesParse(valid, body[n..], ms[1..]);
    assert body == body[..n] + body[n..];
    assert AllValid(valid, ms) by {
      forall i | 0 <= i < |ms| ensures valid(ms[i]) {
        if i > 0 { assert ms[i] == ms[1..][i - 1]; }
      }
    }
  }
}
