# Frame codec of a live-stream push protocol, in Dafny

This project models `src/pack.rs` of bililive-rs: the codec for the binary
frames of the live room's push connection. Every frame starts with a 16-byte
big-endian header (`pack_len` u32, header length u16, version tag `ver` u16,
operation u32, sequence u32) and continues with a body. The model reads that
header (`pack`), patches a u32 into a byte buffer (`write_int`), and builds
outgoing control frames (`encode`). It also covers the decode pipeline
(`build_pack` → `decode`):

- tags 2 (zlib) and 3 (Brotli) decompress the outer body and re-read a
  header from it;
- tag 0 goes to `split_msgs`, which cuts the body into the payloads of its
  concatenated sub-frames;
- tag 1 goes to `get_hot_count`, which turns the first four body bytes into
  the message `{"count": N}`;
- any other tag is refused with `UnsupportProto`.

Modules, one per part of the codec:

- `Bytes` (bytes.dfy): u8/u16/u32, big-endian reading and writing, ASCII bytes.
- `Decimal` (decimal.dfy): how a number prints (`format!`, `to_string`),
  as `NatToString`, with the independent reading `DecimalValue`.
- `Wire` (wire.dfy): errors, results, call outcomes, and the library calls.
- `PackHeader` (header.dfy): the header (`ParseHeader` reads it, `HeaderBytes`
  lays it out), `pack`, `write_int` (specified by `Patched`), `encode`.
- `Splitter` (splitter.dfy): `split_msgs`, as the method `SplitMsgs`,
  specified by the function `Split` and its frame-by-frame walk `SubFrames`;
  `Join` lays frames end to end.
- `Decoder` (decoder.dfy): `zlib_decode`, `brotli_decode`, `decode`,
  `get_hot_count`, `build_pack`. The methods `Decode` and `BuildPack` are
  specified by the functions `DecodeResult` and `BuildPackResult`; `Loop` is
  the unbounded loop given a number of rounds.
- `CodecLaws` (laws.dfy): end-to-end laws.

Some calls are outside the codec: zlib inflation, Brotli decompression and
UTF-8 validation. They are parameters of every decode operation, bundled in
the `Libraries` value. A decompressor returns `None` when its stream fails.
A message is kept as the UTF-8 bytes of the Rust `String` it becomes.

A call ends in one of three ways (`Outcome`):

- it returns a result (`Returns(Ok(messages))` or `Returns(Err(e))`);
- it panics (`Panics`), which is how the source reacts to a sub-frame length
  below 16 or one that runs past the buffer;
- it never returns (`Diverges`).

The last case is real. Every round of `decode`'s loop decompresses the
ORIGINAL outer body (src/pack.rs:87-88). So a decompressed frame tagged
again with the same compression tag makes the loop repeat the same round
forever; more generally, the loop runs forever whenever two rounds still end
on a compressed tag. (A frame that switches to the other tag can instead
fail in the next round's decompressor and return an error.) The
model keeps this behaviour. `Decoder.Decode` stops after two rounds that
still end on a compressed tag and reports `Diverges`. `LoopNeverExits`
proves that the source's unbounded loop (`Decoder.Loop`, given any number of
rounds) never ends in that case.

Two behaviours of the code differ from what one might expect, and the
model follows the code:

- One might expect a declared length past the end of the body to fail
  with an out-of-bounds error. The code slices without a check and panics.
  The model says `Panics`; no error value is claimed.
- One might expect `decode(encode(s, op))` to give `[s]` back.
  `encode` tags its frames with version 1, so its message is read as a hot
  count (`CodecLaws.EncodeDecodesAsHotCount`).

## Model

| member | source | states |
|---|---|---|
| Bytes.U16RoundTrip | src/pack.rs:12-13 | writing a u16 big-endian and reading it back gives the same number |
| Bytes.Be16RoundTrip | src/pack.rs:26 | reading two bytes as a big-endian u16 and writing it back gives the same two bytes |
| Bytes.U32RoundTrip | src/pack.rs:34 | `to_be_bytes` of a u32 reads back to the same number, and its four bytes carry the weights 2^24, 2^16, 2^8, 1 |
| Bytes.Be32RoundTrip | src/pack.rs:26 | reading four bytes as a big-endian u32 and writing it back gives the same four bytes |
| Decimal.DecimalRoundTrip | src/pack.rs:96-97 | the printed numeral of n reads back as n |
| Decimal.NatToStringInjective | src/pack.rs:97 | two numbers print the same text exactly when they are equal, so the version text in `UnsupportProto` identifies the tag |
| PackHeader.ParseHeaderBytes | src/pack.rs:9-16 | the 16 bytes of any header parse back to that header (fields at offsets 0, 4, 6, 8, 12, big-endian) |
| PackHeader.HeaderBytesParse | src/pack.rs:9-16 | the header parsed from a buffer is laid out exactly as the buffer's first 16 bytes |
| PackHeader.ParseHeaderPrefix | src/pack.rs:26 | only the first 16 bytes of a buffer decide its header |
| PackHeader.Pack | src/pack.rs:25-31 | `pack` succeeds iff the buffer holds at least 16 bytes, fails with Truncated otherwise, and returns everything after byte 16 as the body |
| PackHeader.PackLayout | src/pack.rs:25-31 | the header `pack` returns is exactly the one the buffer's first 16 bytes hold |
| PackHeader.Patched | src/pack.rs:33-43 | the same length, bytes start..start+4 equal `val.to_be_bytes()`, every other byte unchanged |
| PackHeader.WriteInt | src/pack.rs:33-43 | the copy-and-overwrite loop produces exactly the patched buffer |
| PackHeader.Encode | src/pack.rs:45-53 | the frame is 16 + len bytes and ends with the message bytes |
| PackHeader.EncodeParses | src/pack.rs:45-53 | parsing an encoded frame gives pack_len = (16 + len) mod 2^32, header length 16, version 1, the given op, sequence 1, and the message as body; pack_len = 16 + len when that fits a u32 |
| Splitter.NextFrame | src/pack.rs:115-121 | one round of the sub-frame loop fails with Truncated exactly when fewer than 16 bytes remain; a cut piece accounts for every remaining byte (16 header bytes, the payload, the tail) |
| Splitter.NextFrameLayout | src/pack.rs:115-121 | a cut piece is exactly a header declaring 16 + the payload's length, followed by the payload and then the tail |
| Splitter.NextFrameOfBytes | src/pack.rs:115-121 | conversely, a header declaring its payload's length, put in front of that payload, is cut back into the same header, payload and tail |
| Splitter.SubFramesRound | src/pack.rs:114-124 | one loop round: under 16 bytes is Truncated, a payload past the end panics, an invalid payload is InvalidUtf8, and otherwise the payload comes first and the walk goes on right after it |
| Splitter.SplitOk | src/pack.rs:110-112 | a split that returns messages took a first payload of pack_len - 16 bytes that fits and is valid UTF-8, and the walk over what follows returned the rest |
| Splitter.SubFramesOfJoin | src/pack.rs:114-125 | concatenated well-formed sub-frames yield their payloads in order, one message per frame |
| Splitter.SubFramesParse | src/pack.rs:114-125 | conversely, a successful walk read a concatenation of well-formed frames holding exactly the returned messages |
| Splitter.SplitOfFrames | src/pack.rs:110-125 | a body that is the first payload (cut by the given header, stride pack_len - 16) plus well-formed sub-frames splits into all the payloads in order |
| Splitter.SplitParse | src/pack.rs:110-125 | conversely, a successful split returns at least one message, the first is the front of the body the header declares, and the rest of the body is sub-frames holding the others |
| Splitter.SplitMsgs | src/pack.rs:103-128 | the cursor loop (offset + remaining length = body length as the invariant, the remaining length decreasing) returns exactly `Splitter.Split`, the first payload followed by the frame-by-frame walk `Splitter.SubFrames`, including its Truncated, InvalidUtf8 and panic cases |
| Decoder.ZlibDecode | src/pack.rs:68-78 | a failed inflate is DecompressFailed; otherwise the result is `pack` of the inflated bytes |
| Decoder.BrotliDecode | src/pack.rs:130-143 | a failed Brotli stream is DecompressFailed; otherwise the result is `pack` of the decompressed bytes |
| Decoder.Loop | src/pack.rs:85-92 | the loop leaves only with a tag outside {2, 3}, is still running only on a tag in {2, 3}, and leaves at once on a tag outside {2, 3} |
| Decoder.LoopForgetsBuffer | src/pack.rs:85-91 | after a compressed round the state depends only on the outer body and the current tag |
| Decoder.LoopSettles | src/pack.rs:85-92 | once the loop has stopped within k rounds, allowing more rounds changes nothing |
| Decoder.LoopStaysInCycle | src/pack.rs:85-92 | from a tag in a set of compressed tags that the rounds never leave, no number of rounds ends the loop |
| Decoder.LoopNeverExits | src/pack.rs:85-92 | two rounds that still end on a compressed tag mean the loop never ends, whatever the number of rounds |
| Decoder.DecodeMatchesLoop | src/pack.rs:80-101 | any budget of two or more rounds gives the same verdict, and the decode diverges exactly when no budget ends the loop |
| Decoder.GetHotCount | src/pack.rs:62-66 | succeeds iff the body has at least 4 bytes (Truncated otherwise), and its value's big-endian bytes are the body's first four |
| Decoder.CountMessage | src/pack.rs:96 | the message is the ASCII bytes of `{"count": N}` |
| Decoder.Dispatch | src/pack.rs:94-98 | tag 0 splits the body, tag 1 gives exactly one count message (or Truncated under 4 bytes), any other tag is `UnsupportProto` with its decimal value |
| Decoder.Decode | src/pack.rs:80-101 | the loop method returns exactly `Decoder.DecodeResult` (the verdict of `Decoder.Loop`, then `Decoder.Dispatch`), including Diverges for the endless case |
| Decoder.BuildPack | src/pack.rs:55-60 | a buffer under 16 bytes is Truncated before anything else is read; otherwise the result is `Decoder.DecodeResult` of the header `PackHeader.ParseHeader` reads and the rest; the whole is `Decoder.BuildPackResult` |
| Decoder.DecodeUncompressed | src/pack.rs:89-97 | an uncompressed tag goes straight to the dispatch; a tag above 3 is refused with its value |
| Decoder.DecodeOneLayer | src/pack.rs:86-88 | one compression layer: the decompressed frame's header and body are dispatched when its tag is not compressed |
| Decoder.DecodeNestedDiverges | src/pack.rs:86-88 | a decompressed frame carrying the same compressed tag makes the decode never return |
| Decoder.DecodeRoundErrors | src/pack.rs:70-73 | a failed decompression is DecompressFailed, a decompressed stream under 16 bytes is Truncated |
| CodecLaws.EncodeDecodesAsHotCount | src/pack.rs:45-53 | decoding an encoded frame reads the message's first four bytes as a hot count, or is Truncated for shorter messages |
| CodecLaws.PlainFramesRoundTrip | src/pack.rs:55-60 | a plain frame holding its payload and well-formed sub-frames decodes to all the payloads in order |
| CodecLaws.CompressedFramesRoundTrip | src/pack.rs:86-95 | a zlib or Brotli frame whose decompressed body is such a plain frame decodes to the same payloads |
| CodecLaws.PlainDecodeParses | src/pack.rs:94-95 | every successful decode of a plain frame returned exactly the payloads the frame is made of, in order |
| CodecLaws.HotCountFive | src/pack.rs:62-66 | a tag-1 frame with body 00 00 00 05 decodes to `{"count": 5}` |
| CodecLaws.VersionNineUnsupported | src/pack.rs:97 | a frame tagged 9 is refused with `UnsupportProto("9")` |

## Left out

- zlib (RFC 1950/1951) and Brotli (RFC 7932) decompression are library calls (`flate2`, `brotli`). They are the parameters `inflate` and `unbrotli`; their algorithms are not modelled.
- `std::str::from_utf8` is the parameter `validUtf8`. Messages stay as bytes rather than decoded characters.
- Errors: one `Error` kind per library error the codec passes on. The conversions into `FelgensError` and that type itself (defined in the crate root, src/lib.rs, which is not part of this model) are reduced to these kinds. `UnsupportProto` keeps the decimal text of the tag, as the source does.
- The `scroll` `Pread` derive is replaced by reading the big-endian fields directly at their offsets.
- Decoder.Decode: the source's loop has no bound on its rounds. The model stops after two rounds that still end on a compressed tag and says `Diverges`. `LoopNeverExits` and `DecodeMatchesLoop` prove that this is exactly when the source never returns.
- Splitter.SplitMsgs: `offset` is an unbounded count here. In the source it is a u32 and is compared with `buf_len as u32`, so bodies of 4 GiB or more wrap (or overflow-panic in a debug build). The model does not capture that.
- Panics are one outcome, `Panics`. The model does not tell apart a debug-build underflow of `pack_len - 16` and the out-of-range slice that a release build's wrapped length causes.
- PackHeader.WriteInt: requires start + 4 <= the buffer's length, so the index panic at src/pack.rs:39 for a window past the end is not modelled (`Patched` requires the same). The only caller, `encode`, writes at offset 0 of a 16-byte template, so it always meets it.
- PackHeader.Encode takes the message as its UTF-8 bytes (`s.as_bytes()`), not as a `&str`.
