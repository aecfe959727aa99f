# S3 Select response framing, modelled in Dafny

This project models the streamed-response layer of the S3 Select helper: the
frame decoder `FrameParser` and the dispatcher `ResponseHandler`.

An S3 Select response body is a sequence of frames. Each frame has a 12-byte
header:

- a version byte;
- a 3-byte type code, which a fixed table maps to `record`, `exception`,
  `stats`, `continuation` or `end`;
- a 4-byte big-endian payload length;
- a 4-byte CRC-32 of the first eight header bytes.

A non-empty payload follows the header, and after it comes its own 4-byte
CRC-32 trailer. For `record`, `stats` and `continuation` frames, the first
eight payload bytes are an offset and are split off from the data.

The dispatcher drives the decoder and hands each frame to its handler:

- record data goes to the records callback;
- exception and stats payloads are decoded as JSON documents and go to their
  callbacks;
- `continuation` and `end` frames do nothing;
- any other type raises `UnknownFrameTypeError`.

The stream is closed however the call ends.

## Modules

| file | module | what it holds |
|---|---|---|
| results.dfy | `Results` | `Option` (Python's `None`) and `Result` (a value or a raised exception) |
| bytes.dfy | `Bytes` | bytes and `u32`; big-endian decoding (`struct.unpack('!I')`) and its inverse encoding |
| checksum.dfy | `Checksum` | CRC-32 as zlib computes it: reflected polynomial 0xEDB88320, initial and final XOR 0xFFFFFFFF |
| exceptions.dfy | `Exceptions` | the exceptions that can escape |
| streams.dfy | `Streams` | the response body: bytes, a read cursor, and how often it was closed |
| parser.dfy | `Parser` | `FrameHeader`, `FramePayload`, `Frame`, the type table, and the decoder |
| encoder.dfy | `Encoder` | the producer's side: how a well-formed frame is written; the decoder's round-trip partner |
| handler.dfy | `Handler` | per-frame dispatch, the dispatch fold, and `handle_response` |
| scenarios.dfy | `Scenarios` | worked responses end to end |

## How the model works

Decoding is state-passing. Each step returns a `Result` together with the
stream as the step left it. This makes "fails after reading exactly twelve
bytes" a statement the model can make.

`read(n)` returns `min(n, remaining)` bytes, as a Python file object does.

The Python code raises exceptions, and the model turns each one into an
`Error` constructor:

| constructor | Python exception |
|---|---|
| `ParserError(computed, received)` | `ParserError` |
| `UnknownFrameTypeError(code)` | `UnknownFrameTypeError` |
| `Malformed` | `struct.error`, raised when fewer than four bytes are unpacked |
| `MissingPayload` | `AttributeError`, raised by `None.decode` |
| `BadDocument` | `UnicodeDecodeError` or `JSONDecodeError` |

The user's callbacks become a trace of `Event`s. `handle_response` becomes
`HandleResponse`, which returns three things:

- the events;
- an `Outcome`, either `Completed` or `Raised(error)`;
- the stream, whose close count is one higher than before the call.

The decoder is a Python generator that the dispatcher's `for` loop pulls from.
The model defines this lazy, interleaved loop twice:

- `Handler.Pump` interleaves decoding and handling, frame by frame;
- `Handler.Dispatch` folds over the frames that `Parser.YieldFrames` produces.

`Handler.PumpIsDispatch` proves that the two deliver the same events and end
the same way.

### Edge cases the code decides

- **Short offsets.** `parser.py` takes the offset as `payload[:8]`, and Python
  slices clamp. A `record`, `stats` or `continuation` body shorter than eight
  bytes therefore gets a shorter offset and no data, without an error.
  `Parser.SplitOffset` models this clamping.
- **Short reads fail as `struct.error`.** A stream that ends inside a header
  or a payload always fails as `struct.error` (`Malformed`), never as a
  checksum mismatch. A payload cut short exhausts the stream, so the trailer
  read returns nothing, and unpacking nothing is `struct.error`.
  `Parser.ParseHeaderSpec` and `Parser.ParsePayloadSpec` state this.
- **Unknown codes.** `parser.py` keeps an unknown type code as its integer.
  Decoding does not fail on it; only the dispatcher raises.

## Model

| member | source | states |
|---|---|---|
| Bytes.BigEndianBound | functions/s3select/s3select/parser.py:86-87 | a big-endian decoding of k bytes is below 256^k, so four bytes give a value below 2^32 |
| Bytes.BigEndianFour | functions/s3select/s3select/parser.py:86-87 | unpacking four bytes b0..b3 gives b0·2^24 + b1·2^16 + b2·2^8 + b3 |
| Bytes.BigEndianLeadingZero | functions/s3select/s3select/parser.py:47-49 | padding the 3-byte type code with a leading zero byte does not change its value |
| Bytes.PackThenUnpack | functions/s3select/s3select/parser.py:86-87 | big-endian decoding inverts k-byte encoding of any value below 256^k |
| Bytes.UnpackThenPack | functions/s3select/s3select/parser.py:86-87 | re-encoding the decoded value in the same width gives back the bytes |
| Checksum.Crc32CheckValue | functions/s3select/s3select/parser.py:60 | the CRC-32 used for both checksums gives the CRC-32 check value 0xCBF43926 for "123456789", as zlib's `crc32(...) & 0xFFFFFFFF` does |
| Streams.Read | functions/s3select/s3select/parser.py:40 | `read(n)` returns the next bytes in order, n of them unless the stream ends first, and advances past exactly those bytes |
| Parser.TypeOfCode | functions/s3select/s3select/parser.py:13-19 | the type-table lookup keeps the code: codes 8388609..8388613 become the five symbolic types, and every other code stays a raw integer |
| Parser.TypeOfCodeOf | functions/s3select/s3select/parser.py:50 | looking up the code of any type that can come out of the table gives that type back |
| Parser.CodeOfInjective | functions/s3select/s3select/parser.py:13-19 | distinct decoded types have distinct codes |
| Parser.Unpack | functions/s3select/s3select/parser.py:86-87 | `_unpack` succeeds exactly on four bytes and otherwise raises `struct.error` |
| Parser.UnpackValue | functions/s3select/s3select/parser.py:86-87 | `_unpack` of b0..b3 is b0·2^24 + b1·2^16 + b2·2^8 + b3, and encoding it back gives the bytes |
| Parser.DecodeHeaderSpec | functions/s3select/s3select/parser.py:43-57 | a header decodes exactly when it has 12 bytes and its checksum field is the CRC-32 of bytes 0..7; a short header is `struct.error`; a mismatch is `ParserError(computed, received)`; a decoded header has a type code below 2^24, its length and its checksum |
| Parser.ParseHeader | functions/s3select/s3select/parser.py:39-42 | the header read yields no header exactly at the end of the stream and consumes 12 bytes when it yields one |
| Parser.ParseHeaderSpec | functions/s3select/s3select/parser.py:39-57 | at the end of the stream nothing is read; a short header consumes the rest and is `struct.error`; otherwise exactly 12 bytes are consumed and the result is the header's decoding |
| Parser.SplitOffsetSpec | functions/s3select/s3select/parser.py:76-84 | offset followed by data is the whole body; only record, stats and continuation frames have an offset, their first eight bytes (fewer if the body is shorter); data is absent exactly when nothing is left |
| Parser.ParsePayload | functions/s3select/s3select/parser.py:68-84 | a successful payload read consumes nothing for length 0 and otherwise the body and its 4-byte trailer |
| Parser.ParsePayloadSpec | functions/s3select/s3select/parser.py:68-84 | length 0 gives an all-absent payload without reading; a short body or trailer is `struct.error`; the CRC-32 of the whole body is checked before the offset split, and a mismatch is `ParserError` |
| Parser.ParseFrame | functions/s3select/s3select/parser.py:32-37 | no frame exactly at the end of the stream; a frame consumes its 12-byte header plus, if non-empty, its body and trailer |
| Parser.HeaderChecksumGate | functions/s3select/s3select/parser.py:53-54 | a header whose checksum field is not the CRC-32 of its first eight bytes fails with `ParserError` after exactly 12 bytes, before any payload byte is read |
| Parser.FrameLayout | functions/s3select/s3select/parser.py:32-84 | a decoded frame lies inside the stream; its version is header byte 0 and its type carries the code in bytes 1..3; its length and checksum are the big-endian fields of the header bytes; the header checksum is the CRC-32 of header bytes 0..7; the payload reassembles to the body, whose CRC-32 is the trailer |
| Parser.YieldFrames | functions/s3select/s3select/parser.py:23-30 | no frame follows an `end` frame; a run that ends with `end` does not fail; a run that stops without failing stops at `end` or at the very end of the stream; the frames are read back to back, so decoding consumes at least their wire size, and exactly that when it does not fail |
| Encoder.EncodeFrame | functions/s3select/s3select/parser.py:39-84 | an encoded frame is 12 header bytes plus, for a non-empty body, the body and a 4-byte trailer |
| Encoder.DecodeEncodedHeader | functions/s3select/s3select/parser.py:43-57 | an encoded header decodes to the version, symbolic type and length it was written with |
| Encoder.ParseEncodedHeader | functions/s3select/s3select/parser.py:39-57 | reading an encoded header consumes exactly 12 bytes and yields the message's version, type and length |
| Encoder.ParseEncodedPayload | functions/s3select/s3select/parser.py:68-84 | reading an encoded body and trailer passes the checksum and yields the offset and data the message's type calls for |
| Encoder.ParseEncodedFrame | functions/s3select/s3select/parser.py:32-84 | decoding an encoded frame gives back its version, type, offset and data, and consumes 12 + (len > 0 ? len + 4 : 0) bytes |
| Encoder.DecodedIsEncoded | functions/s3select/s3select/parser.py:32-84 | the bytes any frame is decoded from are exactly the encoding of the message it carries (version, type, reassembled body), and the frame matches that message: with `Encoder.ParseEncodedFrame`, decoding and encoding are inverse on every accepted frame |
| Encoder.HeaderBytesOf | functions/s3select/s3select/parser.py:43-57 | twelve bytes holding a message's version, type code and length, followed by the CRC-32 of those eight bytes, are that message's encoded header |
| Encoder.ParseFirstEncoded | functions/s3select/s3select/parser.py:32-37 | the first of several encoded frames decodes to a frame carrying the first message and leaves the stream at the encoding of the rest |
| Encoder.YieldEncodedFrames | functions/s3select/s3select/parser.py:23-30 | a stream of encoded frames decodes without error into one frame per message, in stream order, and stops after `end` whatever bytes follow it |
| Encoder.YieldFailsAt | functions/s3select/s3select/parser.py:24-27 | when the next frame fails to decode, the decoder yields nothing and stops with that error |
| Encoder.YieldEncodedThenFailure | functions/s3select/s3select/parser.py:23-30 | after encoded frames that are not `end`, a frame that fails to decode stops the decoder with exactly that error, and every frame before it has been yielded, in order, carrying its message |
| Encoder.YieldedAreEncoded | functions/s3select/s3select/parser.py:23-37 | for arbitrary bytes, the stream begins with the encoding of the messages the yielded frames carry, each frame matching its message; a decoding failure is the failure of the frame right after them, and a clean stop is right after them |
| Handler.LoadDocument | functions/s3select/s3select/handler.py:118 | decoding a document fails on absent data (`AttributeError`) and on unparsable data, and otherwise gives the parsed document |
| Handler.HandleFrame | functions/s3select/s3select/handler.py:104-129 | a frame fails exactly when its type is unknown (`UnknownFrameTypeError` with the raw code) or it is an exception or stats frame with absent or unparsable data; otherwise it delivers one event for record, exception and stats frames and none for `continuation` and `end`, and the event carries the record data unchanged or the parsed document; a failing exception or stats frame raises the document decoding's own exception, `AttributeError` for absent data and the decode error otherwise |
| Handler.Dispatch | functions/s3select/s3select/handler.py:48-49 | handling frames in order delivers at most one event per frame and fails exactly when some frame's handler fails |
| Handler.DispatchAppend | functions/s3select/s3select/handler.py:48-49 | handling a + b is handling a and, unless that raised, then handling b with its events appended |
| Handler.StopsAtFirstFailure | functions/s3select/s3select/handler.py:47-51 | the first frame whose handler raises supplies the escaping exception; only the frames before it deliver events, and no later frame is handled |
| Handler.DispatchDelivers | functions/s3select/s3select/handler.py:104-129 | when no handler raises, the events are exactly one per record, exception and stats frame, in stream order, each carrying its frame's data or parsed document |
| Handler.Pump | functions/s3select/s3select/handler.py:47-49 | the decode-and-handle loop never rewinds the stream and does not close it |
| Handler.HandleResponse | functions/s3select/s3select/handler.py:41-51 | `handle_response` closes the stream exactly once on every path, and leaves it within bounds and unchanged in content |
| Handler.PumpIsDispatch | functions/s3select/s3select/handler.py:47-49 | the interleaved loop delivers the same events as handling the decoder's whole output; it raises the handler's exception if there is one, else the decoder's; with no handler error it stops where the decoder stopped |
| Handler.HandleResponseSpec | functions/s3select/s3select/handler.py:41-51 | `handle_response` delivers the events of the decoded frames in order and raises the first handler exception, else the decode exception; the stream is closed once; a normal return means every frame was handled and every data-bearing frame was delivered |
| Scenarios.DecodeMessages | functions/s3select/s3select/handler.py:41-51 | a response of encoded messages decodes without error into matching frames, and `handle_response` delivers their dispatch and closes once |
| Scenarios.RecordThenEnd | functions/s3select/s3select/handler.py:114-115 | a record frame with offset and "hello", then `end`: the records callback gets "hello" once and the call completes with the stream closed once |
| Scenarios.RecordStatsEnd | functions/s3select/s3select/handler.py:121-123 | a record frame, a stats frame and `end`: the callbacks see the record data, then the stats document parsed from the data after the offset |
| Scenarios.ExceptionThenEnd | functions/s3select/s3select/handler.py:117-119 | an exception frame's whole body, with no offset split off, is parsed and delivered as a document |
| Scenarios.BadExceptionDocument | functions/s3select/s3select/handler.py:117-119 | an unparsable exception document raises after the earlier record was delivered, and the stream is closed |
| Scenarios.StatsWithoutData | functions/s3select/s3select/parser.py:81-82 | a stats body that is only its offset has absent data, so its handler raises the `None.decode` failure |
| Scenarios.UnknownTypeFirst | functions/s3select/s3select/handler.py:111-112 | a frame with an unmapped type code raises `UnknownFrameTypeError` with that code before any later frame is handled |
| Scenarios.ParseCorruptHeader | functions/s3select/s3select/parser.py:53-54 | a header whose checksum field is off by one fails with `ParserError(computed, received)` after its twelve bytes |
| Scenarios.RecordThenCorruptHeader | functions/s3select/s3select/handler.py:47-51 | a record frame, then a corrupted header: the record is delivered, `ParserError` escapes, and the stream is closed once |
| Scenarios.EmptyResponse | functions/s3select/s3select/parser.py:40-42 | an empty body yields no frame and no event, and the call completes with the stream closed once |
| Scenarios.TruncatedHeader | functions/s3select/s3select/parser.py:47-53 | a body cut off inside the first header raises `struct.error`, delivers nothing, and still closes the stream |

## Left out

- `functions/s3select/main.py` and `functions/athena/main.py` are not modelled: building the AWS client, the network calls and reading the event are I/O.
- UTF-8 and JSON decoding are not modelled. They are foreign library calls, so the dispatcher takes the decoder as a parameter `parse`, and `None` stands for a raised decoding error.
- The default `handle_records`, `handle_exceptions` and `handle_stats` (handler.py:53-102) raise `NotImplementedError`. They are subclass hooks, so the model keeps the events they are called with and nothing else.
- Exceptions raised by a user callback are not modelled, because a callback is only an event in the trace. An exception from the callback would escape the same way a handler error does.
- The `frame_parser` constructor argument (handler.py:37-39) is not modelled: the model always uses the built-in decoder.
- The text of the exception messages (exceptions.py:1-9) is not modelled. The model keeps the values they carry: the raw type code, and the computed and received checksums.
- Handler.PumpIsDispatch: when a handler raises, it does not say where the stream was left. It only says that the stream is closed and no later frame is handled, because the read position after a handler error cannot be observed once the stream is closed.
- Checksum: the error-detecting strength of CRC-32 is not modelled. The model proves only the standard check value and uses the function as the decoder does.
- Parser.YieldFrames: its own contract bounds where decoding stops from below when it fails, and fixes it exactly when it does not. Which frames it yields is stated by `Encoder.YieldedAreEncoded` for arbitrary bytes: the stream is always the encoding of the yielded frames' messages followed by the rest, so `Encoder.YieldEncodedFrames` and `Encoder.YieldEncodedThenFailure` cover every input. Where a failed decoding leaves the stream is not stated beyond that lower bound, because `handle_response` closes the stream right after.
- Handler.Json: numbers are integers only. `json.loads` also returns floats, and floating point is not modelled; the handler passes documents through unchanged, so no number is ever inspected.
- The `getattr` dispatch of `_handle_frame` (handler.py:104-109) looks up a `_handle_<type>_frame` method by name, so a subclass can add a handler for another frame type or override an existing one. The model has a closed match over the five known types, because subclassing is not modelled.
