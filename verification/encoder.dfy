/** The producer's side of the framing: the bytes a well-formed frame is
    written as. It is the inverse the decoder is checked against. */
module Encoder {
  import opened Results
  import opened Bytes
  import opened Checksum
  import opened Streams
  import opened Parser

  /** What a producer sends in one frame: version, symbolic type and the
      payload body (offset included, for the offset types). */
  datatype Message = Message(version: byte, frameType: FrameType, body: seq<byte>)

  /** A message the wire format can carry: a recognised type or a raw code
      that fits three bytes, and a body whose length fits four. */
  predicate Encodable(m: Message) {
    Known(m.frameType) && CodeOf(m.frameType) < 0x100_0000 && |m.body| < 0x1_0000_0000
  }

  /** Header bytes 0..7: version, 3-byte type code, 4-byte payload length. */
  function Prelude(m: Message): seq<byte>
    requires Encodable(m)
  {
    [m.version] + PackBE(CodeOf(m.frameType), 3) + Pack4(|m.body|)
  }

  /** The twelve header bytes: the prelude and its CRC-32. */
  function EncodeHeader(m: Message): seq<byte>
    requires Encodable(m)
  {
    Prelude(m) + Pack4(Crc32(Prelude(m)))
  }

  /** A whole frame: header, then for a non-empty body the body and its
      CRC-32 trailer. */
  function EncodeFrame(m: Message): (b: seq<byte>)
    requires Encodable(m)
    ensures |b| == FrameSize(|m.body|)
  {
    EncodeHeader(m) + if |m.body| == 0 then [] else m.body + Pack4(Crc32(m.body))
  }

  /** The offset a decoded frame of this message must carry. */
  function ExpectedOffset(m: Message): Option<seq<byte>> {
    if HasOffset(m.frameType) && |m.body| > 0
    then Some(m.body[..if |m.body| < OffsetSize then |m.body| else OffsetSize])
    else None
  }

  /** The data a decoded frame of this message must carry: the body after
      the offset, absent when nothing is left. */
  function ExpectedData(m: Message): Option<seq<byte>> {
    var rest := if HasOffset(m.frameType) && |m.body| > 0 then m.body[|ExpectedOffset(m).value|..] else m.body;
    if |rest| == 0 then None else Some(rest)
  }

  /** Frame `f` carries message `m`: same version, type and length, the
      offset and data the type calls for, and offset and data together are
      the body. */
  predicate Matches(f: Frame, m: Message) {
    && f.header.version == m.version
    && f.header.frameType == m.frameType
    && f.header.payloadLength == |m.body|
    && f.payload.offset == ExpectedOffset(m)
    && f.payload.data == ExpectedData(m)
    && Reassemble(f.payload) == m.body
  }

  /** An encoded header decodes to the message's version, type and length. */
  lemma DecodeEncodedHeader(m: Message)
    requires Encodable(m)
    ensures var r := DecodeHeader(EncodeHeader(m));
            && r.Ok?
            && r.value.version == m.version
            && r.value.frameType == m.frameType
            && r.value.payloadLength == |m.body|
  {
    hide DecodeHeader, Crc32;
    var p := Prelude(m);
    var h := EncodeHeader(m);
    var code := CodeOf(m.frameType);
    assert Pow256(3) == 0x100_0000 && Pow256(4) == 0x1_0000_0000;
    assert h[..8] == p;
    assert h[8..12] == Pack4(Crc32(p));
    assert h[1..4] == PackBE(code, 3);
    assert h[4..8] == Pack4(|m.body|);
    PackThenUnpack(Crc32(p), 4);
    PackThenUnpack(code, 3);
    PackThenUnpack(|m.body|, 4);
    DecodeHeaderSpec(h);
    CodeOfInjective(DecodeHeader(h).value.frameType, m.frameType);
  }

  /** A stream positioned at an encoded header reads it back. */
  lemma ParseEncodedHeader(st: Stream, m: Message)
    requires st.Valid() && Encodable(m)
    requires st.pos + HeaderSize <= |st.bytes| && st.bytes[st.pos..st.pos + HeaderSize] == EncodeHeader(m)
    ensures var r := ParseHeader(st);
            && r.rest == st.(pos := st.pos + HeaderSize)
            && r.result.Ok? && r.result.value.Some?
            && r.result.value.value.version == m.version
            && r.result.value.value.frameType == m.frameType
            && r.result.value.value.payloadLength == |m.body|
  {
    hide ParseHeader, DecodeHeader, EncodeHeader;
    DecodeEncodedHeader(m);
    ParseHeaderSpec(st);
  }

  /** A stream positioned at an encoded body and trailer reads back a payload
      carrying the body. */
  lemma ParseEncodedPayload(st: Stream, h: FrameHeader, m: Message)
    requires st.Valid() && Encodable(m)
    requires h.frameType == m.frameType && h.payloadLength == |m.body|
    requires |m.body| > 0 ==>
               && st.pos + |m.body| + 4 <= |st.bytes|
               && st.bytes[st.pos..st.pos + |m.body| + 4] == m.body + Pack4(Crc32(m.body))
    ensures var r := ParsePayload(st, h);
            && r.result.Ok?
            && r.result.value.offset == ExpectedOffset(m)
            && r.result.value.data == ExpectedData(m)
            && Reassemble(r.result.value) == m.body
            && r.rest == st.(pos := st.pos + if |m.body| == 0 then 0 else |m.body| + 4)
  {
    hide ParsePayload, SplitOffset, Crc32, BigEndian;
    ParsePayloadSpec(st, h);
    var n := |m.body|;
    if n > 0 {
      var end := st.pos + n;
      var framed := st.bytes[st.pos..end + 4];
      assert st.bytes[st.pos..end] == framed[..n] == m.body;
      assert st.bytes[end..end + 4] == framed[n..] == Pack4(Crc32(m.body));
      PackThenUnpack(Crc32(m.body), 4);
      SplitOffsetSpec(m.frameType, m.body, Crc32(m.body));
      var p := SplitOffset(m.frameType, m.body, Crc32(m.body));
      var k := |p.offset.GetOr([])|;
      assert p.offset.GetOr([]) == m.body[..k];
      assert p.data.GetOr([]) == m.body[k..];
    }
  }

  /** Round trip for one frame: decoding a stream positioned at an encoded
      frame yields a frame carrying the message and leaves the stream just
      past the frame, 12 bytes plus, for a non-empty body, the body and its
      4-byte trailer. */
  lemma ParseEncodedFrame(st: Stream, m: Message)
    requires st.Valid() && Encodable(m)
    requires st.pos + |EncodeFrame(m)| <= |st.bytes|
    requires st.bytes[st.pos..st.pos + |EncodeFrame(m)|] == EncodeFrame(m)
    ensures var r := ParseFrame(st);
            && r.result.Ok? && r.result.value.Some?
            && Matches(r.result.value.value, m)
            && r.rest == st.(pos := st.pos + FrameSize(|m.body|))
  {
    hide ParseHeader, ParsePayload, EncodeHeader, Crc32;
    var e := EncodeFrame(m);
    var n := |m.body|;
    var framed := st.bytes[st.pos..st.pos + |e|];
    assert st.bytes[st.pos..st.pos + HeaderSize] == framed[..HeaderSize] == EncodeHeader(m);
    ParseEncodedHeader(st, m);
    var hs := ParseHeader(st);
    if n > 0 {
      assert st.bytes[hs.rest.pos..hs.rest.pos + n + 4] == framed[HeaderSize..] == m.body + Pack4(Crc32(m.body));
    }
    ParseEncodedPayload(hs.rest, hs.result.value.value, m);
  }

  /** The message a decoded frame carries: its version, its type, and its
      payload body put back together. */
  function MessageOf(f: Frame): Message {
    Message(f.header.version, f.header.frameType, Reassemble(f.payload))
  }

  /** The converse round trip for one frame: whatever bytes a frame is
      decoded from are exactly the encoding of the message it carries, and
      the frame matches that message. With `ParseEncodedFrame`, decoding and
      encoding are inverse on every frame the decoder accepts. */
  lemma DecodedIsEncoded(st: Stream)
    requires st.Valid()
    ensures var r := ParseFrame(st);
            r.result.Ok? && r.result.value.Some? ==>
              var f := r.result.value.value;
              var m := MessageOf(f);
              && Encodable(m)
              && Matches(f, m)
              && st.pos + FrameSize(f.header.payloadLength) <= |st.bytes|
              && st.bytes[st.pos..st.pos + FrameSize(f.header.payloadLength)] == EncodeFrame(m)
  {
    hide ParseFrame, ParseHeader, ParsePayload, DecodeHeader, SplitOffset, Crc32, BigEndian, PackBE, EncodeHeader, Matches;
    FrameLayout(st);
    var r := ParseFrame(st);
    if r.result.Ok? && r.result.value.Some? {
      var f := r.result.value.value;
      var m := MessageOf(f);
      var n := f.header.payloadLength;
      var p := st.pos;
      assert Encodable(m);
      var h := st.bytes[p..p + HeaderSize];
      assert h[1..4] == st.bytes[p + 1..p + 4] && h[4..8] == st.bytes[p + 4..p + 8];
      assert h[8..12] == st.bytes[p + 8..p + 12] && h[..8] == st.bytes[p..p + 8];
      HeaderBytesOf(h, m);
      if n > 0 {
        var trailer := st.bytes[p + HeaderSize + n..p + FrameSize(n)];
        UnpackThenPack(trailer);
        assert st.bytes[p..p + FrameSize(n)] == h + m.body + trailer;
      }
      ParseEncodedFrame(st, m);
    }
  }

  /** Twelve bytes carrying a message's version, type code and length, and
      the CRC-32 of their first eight bytes, are that message's encoded
      header. */
  lemma HeaderBytesOf(h: seq<byte>, m: Message)
    requires |h| == HeaderSize && Encodable(m)
    requires m.version == h[0] && CodeOf(m.frameType) == BigEndian(h[1..4]) && |m.body| == BigEndian(h[4..8])
    requires BigEndian(h[8..12]) == Crc32(h[..8])
    ensures h == EncodeHeader(m)
  {
    hide Crc32, BigEndian, PackBE;
    UnpackThenPack(h[1..4]);
    UnpackThenPack(h[4..8]);
    UnpackThenPack(h[8..12]);
    assert h[..8] == [h[0]] + h[1..4] + h[4..8] == Prelude(m);
    assert h == h[..8] + h[8..12];
  }

  predicate AllEncodable(ms: seq<Message>) {
    forall i :: 0 <= i < |ms| ==> Encodable(ms[i])
  }

  /** A message sequence a producer may send: `end` only as the last one. */
  predicate EndOnlyLast(ms: seq<Message>) {
    forall i :: 0 <= i < |ms| - 1 ==> ms[i].frameType != End
  }

  /** The frames of a stream, one after another. */
  function EncodeFrames(ms: seq<Message>): seq<byte>
    requires AllEncodable(ms)
  {
    if |ms| == 0 then [] else EncodeFrame(ms[0]) + EncodeFrames(ms[1..])
  }

  /** Frames and messages correspond one to one, in order. */
  predicate AllMatch(frames: seq<Frame>, ms: seq<Message>) {
    |frames| == |ms| && forall i :: 0 <= i < |ms| ==> Matches(frames[i], ms[i])
  }

  lemma ConsAllMatch(f: Frame, frames: seq<Frame>, ms: seq<Message>)
    requires |ms| > 0 && Matches(f, ms[0]) && AllMatch(frames, ms[1..])
    ensures AllMatch([f] + frames, ms)
  {
    forall i | 1 <= i < |ms|
      ensures Matches(([f] + frames)[i], ms[i])
    {
      assert ([f] + frames)[i] == frames[i - 1] && ms[i] == ms[1..][i - 1];
    }
  }

  /** The first of several encoded frames decodes to a frame carrying the
      first message and leaves the stream at the encoding of the others. */
  lemma ParseFirstEncoded(st: Stream, ms: seq<Message>, tail: seq<byte>)
    requires st.Valid() && AllEncodable(ms) && |ms| > 0
    requires st.bytes[st.pos..] == EncodeFrames(ms) + tail
    ensures var s := ParseFrame(st);
            && s.result.Ok? && s.result.value.Some?
            && Matches(s.result.value.value, ms[0])
            && s.rest == st.(pos := st.pos + |EncodeFrame(ms[0])|)
            && AllEncodable(ms[1..])
            && s.rest.bytes[s.rest.pos..] == EncodeFrames(ms[1..]) + tail
            && |EncodeFrames(ms)| == |EncodeFrame(ms[0])| + |EncodeFrames(ms[1..])|
  {
    hide ParseFrame, EncodeFrame, Matches;
    var e := EncodeFrame(ms[0]);
    assert EncodeFrames(ms) == e + EncodeFrames(ms[1..]);
    assert st.bytes[st.pos..][..|e|] == e;
    ParseEncodedFrame(st, ms[0]);
    assert st.bytes[st.pos + |e|..] == st.bytes[st.pos..][|e|..];
  }

  /** Round trip for a stream: the decoder yields one frame per encoded
      message, in stream order, each carrying its message, and stops without
      error, either at the end of the stream or right after an `end` frame,
      whatever bytes follow it. */
  lemma {:induction false} YieldEncodedFrames(st: Stream, ms: seq<Message>, tail: seq<byte>)
    requires st.Valid() && AllEncodable(ms) && EndOnlyLast(ms)
    requires st.bytes[st.pos..] == EncodeFrames(ms) + tail
    requires tail == [] || (|ms| > 0 && ms[|ms| - 1].frameType == End)
    ensures YieldFrames(st).failure == None && AllMatch(YieldFrames(st).frames, ms)
    decreases |ms|
  {
    hide ParseFrame, EncodeFrame, WireSize;
    if |ms| > 0 {
      hide EncodeFrames;
      ParseFirstEncoded(st, ms, tail);
      var s := ParseFrame(st);
      var f := s.result.value.value;
      if ms[0].frameType != End {
        assert EndOnlyLast(ms[1..]);
        YieldEncodedFrames(s.rest, ms[1..], tail);
        ConsAllMatch(f, YieldFrames(s.rest).frames, ms);
      }
    }
  }

  /** The messages a sequence of decoded frames carries, in order. */
  function MessagesOf(frames: seq<Frame>): (ms: seq<Message>)
    ensures |ms| == |frames|
  {
    if |frames| == 0 then [] else [MessageOf(frames[0])] + MessagesOf(frames[1..])
  }

  /** `d` reads back from `st`: the stream begins with the encoding of the
      messages `d`'s frames carry, each frame matching its message; if `d`
      failed, decoding the frame right after them fails with that error, and
      otherwise `d` stopped right after them. */
  predicate ReadsBack(st: Stream, d: Decoded)
    requires st.Valid()
  {
    var ms := MessagesOf(d.frames);
    && AllEncodable(ms)
    && AllMatch(d.frames, ms)
    && st.pos + |EncodeFrames(ms)| <= |st.bytes|
    && st.bytes[st.pos..st.pos + |EncodeFrames(ms)|] == EncodeFrames(ms)
    && (d.failure.None? ==> d.rest.pos == st.pos + |EncodeFrames(ms)|)
    && (d.failure.Some? ==> ParseFrame(st.(pos := st.pos + |EncodeFrames(ms)|)).result == Err(d.failure.value))
  }

  /** A frame decoded at `st`, put in front of what reads back from where
      it ends, reads back from `st`. */
  lemma ConsReadsBack(st: Stream, d: Decoded)
    requires st.Valid() && ParseFrame(st).result.Ok? && ParseFrame(st).result.value.Some?
    requires ReadsBack(ParseFrame(st).rest, d)
    ensures ReadsBack(st, Decoded([ParseFrame(st).result.value.value] + d.frames, d.failure, d.rest))
  {
    hide ParseFrame, ParseHeader, ParsePayload, EncodeFrame, EncodeFrames, WireSize, Matches, Reassemble;
    var s := ParseFrame(st);
    var f := s.result.value.value;
    var m := MessageOf(f);
    DecodedIsEncoded(st);
    var ms := MessagesOf(d.frames);
    assert ([f] + d.frames)[1..] == d.frames;
    assert MessagesOf([f] + d.frames) == [m] + ms;
    PrefixCons(st, m, ms);
    assert ([m] + ms)[1..] == ms;
    ConsAllMatch(f, d.frames, [m] + ms);
    assert s.rest.(pos := s.rest.pos + |EncodeFrames(ms)|) == st.(pos := st.pos + |EncodeFrames([m] + ms)|);
  }

  /** The converse round trip for a stream: whatever the decoder yields from
      arbitrary bytes reads back. The bytes begin with the encoding of the
      messages the yielded frames carry, each frame matching its message; a
      failure is that of decoding the frame right after them, and a clean
      stop is right after them. So every stream is `EncodeFrames(ms) + tail`,
      and `YieldEncodedFrames` and `YieldEncodedThenFailure` describe every
      input. */
  lemma {:induction false} YieldedAreEncoded(st: Stream)
    requires st.Valid()
    ensures ReadsBack(st, YieldFrames(st))
    decreases |st.bytes| - st.pos
  {
    hide ParseHeader, ParsePayload, EncodeFrame, WireSize, Matches, Reassemble;
    var s := ParseFrame(st);
    if s.result.Ok? && s.result.value.Some? {
      var f := s.result.value.value;
      if f.header.frameType == End {
        assert ReadsBack(s.rest, Decoded([], None, s.rest));
        hide ReadsBack;
        ConsReadsBack(st, Decoded([], None, s.rest));
        assert [f] + [] == [f];
      } else {
        hide ReadsBack;
        YieldedAreEncoded(s.rest);
        ConsReadsBack(st, YieldFrames(s.rest));
      }
    } else {
      assert st.(pos := st.pos + 0) == st;
    }
  }

  /** A stream that holds the frame of `m` followed by the frames of `ms`
      holds the frames of `[m] + ms`. */
  lemma PrefixCons(st: Stream, m: Message, ms: seq<Message>)
    requires Encodable(m) && AllEncodable(ms)
    requires st.pos + |EncodeFrame(m)| + |EncodeFrames(ms)| <= |st.bytes|
    requires st.bytes[st.pos..st.pos + |EncodeFrame(m)|] == EncodeFrame(m)
    requires st.bytes[st.pos + |EncodeFrame(m)|..st.pos + |EncodeFrame(m)| + |EncodeFrames(ms)|] == EncodeFrames(ms)
    ensures AllEncodable([m] + ms)
    ensures |EncodeFrames([m] + ms)| == |EncodeFrame(m)| + |EncodeFrames(ms)|
    ensures st.bytes[st.pos..st.pos + |EncodeFrames([m] + ms)|] == EncodeFrames([m] + ms)
  {
    hide EncodeFrame, EncodeFrames;
    ConsEncodeFrames(m, ms);
    var k := |EncodeFrame(m)|;
    assert st.bytes[st.pos..st.pos + k + |EncodeFrames(ms)|]
        == st.bytes[st.pos..st.pos + k] + st.bytes[st.pos + k..st.pos + k + |EncodeFrames(ms)|];
  }

  /** Encoding a message in front of others puts its frame in front of
      theirs. */
  lemma ConsEncodeFrames(m: Message, ms: seq<Message>)
    requires Encodable(m) && AllEncodable(ms)
    ensures AllEncodable([m] + ms)
    ensures EncodeFrames([m] + ms) == EncodeFrame(m) + EncodeFrames(ms)
  {
    hide EncodeFrame;
    assert ([m] + ms)[1..] == ms;
  }

  /** No message of `ms` is an `end` message. */
  predicate NoEnd(ms: seq<Message>) {
    forall i :: 0 <= i < |ms| ==> ms[i].frameType != End
  }

  /** A stream whose next frame fails to decode yields no frame and that
      error. */
  lemma YieldFailsAt(st: Stream)
    requires st.Valid() && ParseFrame(st).result.Err?
    ensures YieldFrames(st).frames == [] && YieldFrames(st).failure == Some(ParseFrame(st).result.error)
  {
    hide ParseFrame, WireSize;
  }

  /** A decoding error after good frames: when a stream holds encoded
      messages, none of them `end`, and decoding fails at the frame right
      after them, the decoder yields one matching frame per message, in
      order, and then stops with exactly that error. */
  lemma {:induction false} YieldEncodedThenFailure(st: Stream, ms: seq<Message>, tail: seq<byte>)
    requires st.Valid() && AllEncodable(ms) && NoEnd(ms)
    requires st.bytes[st.pos..] == EncodeFrames(ms) + tail
    requires ParseFrame(st.(pos := st.pos + |EncodeFrames(ms)|)).result.Err?
    ensures YieldFrames(st).failure == Some(ParseFrame(st.(pos := st.pos + |EncodeFrames(ms)|)).result.error)
    ensures AllMatch(YieldFrames(st).frames, ms)
    decreases |ms|
  {
    hide ParseFrame, EncodeFrame, WireSize;
    if |ms| == 0 {
      assert st.(pos := st.pos + |EncodeFrames(ms)|) == st;
      YieldFailsAt(st);
    } else {
      hide EncodeFrames;
      ParseFirstEncoded(st, ms, tail);
      var s := ParseFrame(st);
      var f := s.result.value.value;
      assert NoEnd(ms[1..]);
      assert s.rest.(pos := s.rest.pos + |EncodeFrames(ms[1..])|) == st.(pos := st.pos + |EncodeFrames(ms)|);
      YieldEncodedThenFailure(s.rest, ms[1..], tail);
      ConsAllMatch(f, YieldFrames(s.rest).frames, ms);
    }
  }
}
