/** The frame decoder: turns the bytes of a streamed S3 Select response into
    the ordered sequence of checksum-verified frames they encode. */
module Parser {
  import opened Results
  import opened Bytes
  import opened Checksum
  import opened Exceptions
  import opened Streams

  /** Symbolic frame types; `Raw` keeps a type code the table does not map. */
  datatype FrameType = Record | Exception | Stats | Continuation | End | Raw(code: nat)

  datatype FrameHeader = FrameHeader(version: byte, frameType: FrameType, payloadLength: u32, checksum: u32)

  /** `data` and `offset` are absent when empty or not applicable; `checksum`
      is absent exactly when the payload length is zero. */
  datatype FramePayload = FramePayload(data: Option<seq<byte>>, offset: Option<seq<byte>>, checksum: Option<u32>)

  datatype Frame = Frame(header: FrameHeader, payload: FramePayload)

  /** What a decoding step produced (a value or a raised exception) and the
      stream as that step left it. */
  datatype Step<T> = Step(result: Result<T, Error>, rest: Stream)

  const HeaderSize: nat := 12
  const OffsetSize: nat := 8

  /** The fixed table from wire codes to symbolic types. */
  const TypeTable: map<nat, FrameType> :=
    map[8388609 := Record, 8388610 := Exception, 8388611 := Stats, 8388612 := Continuation, 8388613 := End]

  /** The wire code of a symbolic type. */
  function CodeOf(t: FrameType): nat {
    match t
    case Record => 8388609
    case Exception => 8388610
    case Stats => 8388611
    case Continuation => 8388612
    case End => 8388613
    case Raw(code) => code
  }

  /** The types a decoded header can carry: a `Raw` type never holds one of
      the five codes the table recognises. */
  predicate Known(t: FrameType) {
    !t.Raw? || !(8388609 <= t.code <= 8388613)
  }

  /** The table lookup with the code itself as the default: the symbolic type
      always carries the code it was read from, and exactly the five codes
      8388609..8388613 are recognised. No code makes decoding fail. */
  function TypeOfCode(code: nat): (t: FrameType)
    ensures CodeOf(t) == code && Known(t)
    ensures t.Raw? <==> !(8388609 <= code <= 8388613)
  {
    if code in TypeTable then TypeTable[code] else Raw(code)
  }

  /** Looking up the code of a recognised type gives back the type: with
      `TypeOfCode`'s contract, the lookup is a bijection between codes and
      `Known` types. */
  lemma TypeOfCodeOf(t: FrameType)
    requires Known(t)
    ensures TypeOfCode(CodeOf(t)) == t
  {
  }

  /** Distinct recognised types have distinct codes. */
  lemma CodeOfInjective(a: FrameType, b: FrameType)
    requires Known(a) && Known(b) && CodeOf(a) == CodeOf(b)
    ensures a == b
  {
  }

  /** Python's `s[i:j]` for non-negative bounds: bounds past the end are
      clamped, and the slice is empty when `i >= j`. */
  function Slice(s: seq<byte>, i: nat, j: nat): seq<byte> {
    var hi := if j <= |s| then j else |s|;
    var lo := if i <= hi then i else hi;
    s[lo..hi]
  }

  /** `struct.unpack('!I', b)[0]`: a big-endian 32-bit integer, or
      `struct.error` unless there are exactly four bytes. */
  function Unpack(b: seq<byte>): (r: Result<u32, Error>)
    ensures r.Ok? <==> |b| == 4
    ensures r.Err? ==> r.error == Malformed
  {
    if |b| == 4 then BigEndianBound(b); Ok(BigEndian(b)) else Err(Malformed)
  }

  /** Four bytes b0..b3 unpack to b0 * 2^24 + b1 * 2^16 + b2 * 2^8 + b3, the
      integer whose packing they are. */
  lemma UnpackValue(b: seq<byte>)
    requires |b| == 4
    ensures Unpack(b) == Ok(b[0] as int * 0x100_0000 + b[1] as int * 0x1_0000 + b[2] as int * 0x100 + b[3] as int)
    ensures Pack4(Unpack(b).value) == b
  {
    BigEndianFour(b);
    UnpackThenPack(b);
  }

  /** The header decoded from the (non-empty) bytes of a header read:
      version from byte 0, type code from bytes 1..3 widened with a zero
      byte, payload length from bytes 4..7 and checksum from bytes 8..11,
      which must be the CRC-32 of bytes 0..7. Fewer than twelve bytes leave
      one of the three unpacks short. */
  function DecodeHeader(h: seq<byte>): Result<FrameHeader, Error>
    requires |h| > 0
  {
    if |h| < HeaderSize then Err(Malformed)
    else
      BigEndianBound(h[4..8]);
      BigEndianBound(h[8..12]);
      var frameType := TypeOfCode(BigEndian([0] + h[1..4]));
      var payloadLength := BigEndian(h[4..8]);
      var checksum := BigEndian(h[8..12]);
      var computed := Crc32(h[..8]);
      if checksum != computed then Err(ParserError(computed, checksum))
      else Ok(FrameHeader(h[0], frameType, payloadLength, checksum))
  }

  /** What `DecodeHeader` accepts, rejects and produces. */
  lemma DecodeHeaderSpec(h: seq<byte>)
    requires |h| > 0
    ensures DecodeHeader(h).Ok? <==> |h| >= HeaderSize && BigEndian(h[8..12]) == Crc32(h[..8])
    ensures |h| < HeaderSize ==> DecodeHeader(h) == Err(Malformed)
    ensures |h| >= HeaderSize && BigEndian(h[8..12]) != Crc32(h[..8]) ==>
              DecodeHeader(h) == Err(ParserError(Crc32(h[..8]), BigEndian(h[8..12])))
    ensures DecodeHeader(h).Ok? ==>
              var hd := DecodeHeader(h).value;
              && hd.version == h[0]
              && Known(hd.frameType)
              && CodeOf(hd.frameType) == BigEndian(h[1..4]) < 0x100_0000
              && hd.payloadLength == BigEndian(h[4..8])
              && hd.checksum == Crc32(h[..8])
  {
    if |h| >= HeaderSize {
      BigEndianLeadingZero(h[1..4]);
      BigEndianBound(h[1..4]);
      assert Pow256(3) == 0x100_0000;
    }
  }

  /** Reads a header: an empty read is the clean end of the stream, and
      otherwise up to twelve bytes are consumed and decoded. */
  function ParseHeader(st: Stream): (r: Step<Option<FrameHeader>>)
    requires st.Valid()
    ensures r.rest.Valid() && r.rest.bytes == st.bytes && r.rest.closeCount == st.closeCount
    ensures st.pos <= r.rest.pos
    ensures r.result == Ok(None) <==> st.pos == |st.bytes|
    ensures r.result.Ok? && r.result.value.Some? ==> r.rest.pos == st.pos + HeaderSize
  {
    var (h, st') := Read(st, HeaderSize);
    if |h| == 0 then Step(Ok(None), st')
    else
      DecodeHeaderSpec(h);
      match DecodeHeader(h)
      case Ok(header) => Step(Ok(Some(header)), st')
      case Err(e) => Step(Err(e), st')
  }

  /** How far `ParseHeader` reads and what it yields: nothing at the end of
      the stream; `struct.error` for a short header, which consumes the rest
      of the stream; otherwise exactly twelve bytes are consumed, whether or
      not their checksum holds, and decoded. */
  lemma ParseHeaderSpec(st: Stream)
    requires st.Valid()
    ensures st.pos == |st.bytes| ==> ParseHeader(st) == Step(Ok(None), st)
    ensures 0 < |st.bytes| - st.pos < HeaderSize ==> ParseHeader(st) == Step(Err(Malformed), st.(pos := |st.bytes|))
    ensures st.pos + HeaderSize <= |st.bytes| ==>
              && ParseHeader(st).rest == st.(pos := st.pos + HeaderSize)
              && match DecodeHeader(st.bytes[st.pos..st.pos + HeaderSize])
                 case Ok(h) => ParseHeader(st).result == Ok(Some(h))
                 case Err(e) => ParseHeader(st).result == Err(e)
  {
    if 0 < |st.bytes| - st.pos < HeaderSize {
      DecodeHeaderSpec(st.bytes[st.pos..]);
    }
  }

  /** The types whose payload starts with an 8-byte offset. */
  predicate HasOffset(t: FrameType) {
    t == Record || t == Stats || t == Continuation
  }

  /** The payload body put back together: offset followed by data. */
  function Reassemble(p: FramePayload): seq<byte> {
    p.offset.GetOr([]) + p.data.GetOr([])
  }

  /** The payload of a checksum-verified body of a frame of type `t`. */
  function SplitOffset(t: FrameType, body: seq<byte>, checksum: u32): FramePayload {
    var offset := if HasOffset(t) then Some(Slice(body, 0, OffsetSize)) else None;
    var data := if HasOffset(t) then Slice(body, OffsetSize, |body|) else body;
    FramePayload(if |data| == 0 then None else Some(data), offset, Some(checksum))
  }

  /** Splitting loses nothing: offset and data put back together are the
      body. For the offset types the offset is the first eight bytes (fewer
      when the body is shorter); other types have no offset; data is absent
      exactly when nothing remains after the offset. */
  lemma SplitOffsetSpec(t: FrameType, body: seq<byte>, checksum: u32)
    ensures var p := SplitOffset(t, body, checksum);
            && Reassemble(p) == body
            && (p.offset.Some? <==> HasOffset(t))
            && (p.offset.Some? ==> p.offset.value == body[..if |body| < OffsetSize then |body| else OffsetSize])
            && (p.data.None? <==> |body| <= (if HasOffset(t) then OffsetSize else 0))
            && (p.data.Some? ==> |p.data.value| > 0)
            && p.checksum == Some(checksum)
  {
    var p := SplitOffset(t, body, checksum);
    if HasOffset(t) && |body| >= OffsetSize {
      assert Slice(body, 0, OffsetSize) + Slice(body, OffsetSize, |body|) == body;
    }
  }

  /** Reads the payload of a frame whose header is `h`: nothing at all for
      length zero, otherwise the body and its 4-byte checksum trailer. */
  function ParsePayload(st: Stream, h: FrameHeader): (r: Step<FramePayload>)
    requires st.Valid()
    ensures r.rest.Valid() && r.rest.bytes == st.bytes && r.rest.closeCount == st.closeCount
    ensures st.pos <= r.rest.pos
    ensures r.result.Ok? ==> r.rest.pos == st.pos + (if h.payloadLength == 0 then 0 else h.payloadLength + 4)
  {
    if h.payloadLength == 0 then Step(Ok(FramePayload(None, None, None)), st)
    else
      var (body, st1) := Read(st, h.payloadLength);
      var (trailer, st2) := Read(st1, 4);
      match Unpack(trailer)
      case Err(e) => Step(Err(e), st2)
      case Ok(declared) =>
        var computed := Crc32(body);
        if declared != computed then Step(Err(ParserError(computed, declared)), st2)
        else Step(Ok(SplitOffset(h.frameType, body, declared)), st2)
  }

  /** What `ParsePayload` reads and yields: length zero reads nothing and
      gives a payload with nothing present; a body or trailer cut short by
      the end of the stream is `struct.error`; otherwise body and trailer are
      consumed, the CRC-32 of the whole body is checked against the trailer
      before the offset is split off, and a mismatch is `ParserError`. */
  lemma ParsePayloadSpec(st: Stream, h: FrameHeader)
    requires st.Valid()
    ensures h.payloadLength == 0 ==> ParsePayload(st, h) == Step(Ok(FramePayload(None, None, None)), st)
    ensures h.payloadLength > 0 && st.pos + h.payloadLength + 4 > |st.bytes| ==>
              ParsePayload(st, h) == Step(Err(Malformed), st.(pos := |st.bytes|))
    ensures h.payloadLength > 0 && st.pos + h.payloadLength + 4 <= |st.bytes| ==>
              var end := st.pos + h.payloadLength;
              var body := st.bytes[st.pos..end];
              var declared := BigEndian(st.bytes[end..end + 4]);
              && ParsePayload(st, h).rest == st.(pos := end + 4)
              && (declared != Crc32(body) ==> ParsePayload(st, h).result == Err(ParserError(Crc32(body), declared)))
              && (declared == Crc32(body) ==> ParsePayload(st, h).result == Ok(SplitOffset(h.frameType, body, declared)))
  {
    hide Crc32, BigEndian, SplitOffset;
  }

  /** The number of bytes a frame with this payload length occupies. */
  function FrameSize(payloadLength: nat): nat {
    HeaderSize + if payloadLength == 0 then 0 else payloadLength + 4
  }

  /** Reads one frame: no frame exactly when the stream is already at its
      end, and otherwise a frame occupying its header, its body and the
      body's trailer, and nothing else. */
  function ParseFrame(st: Stream): (r: Step<Option<Frame>>)
    requires st.Valid()
    ensures r.rest.Valid() && r.rest.bytes == st.bytes && r.rest.closeCount == st.closeCount
    ensures st.pos <= r.rest.pos
    ensures r.result == Ok(None) <==> st.pos == |st.bytes|
    ensures r.result.Ok? && r.result.value.Some? ==>
              r.rest.pos == st.pos + FrameSize(r.result.value.value.header.payloadLength)
  {
    var hs := ParseHeader(st);
    match hs.result
    case Err(e) => Step(Err(e), hs.rest)
    case Ok(None) => Step(Ok(None), hs.rest)
    case Ok(Some(h)) =>
      var ps := ParsePayload(hs.rest, h);
      match ps.result
      case Err(e) => Step(Err(e), ps.rest)
      case Ok(p) => Step(Ok(Some(Frame(h, p))), ps.rest)
  }

  /** A header whose checksum field is not the CRC-32 of its first eight
      bytes fails decoding with `ParserError` once exactly the twelve header
      bytes have been read, before any byte of the payload. */
  lemma HeaderChecksumGate(st: Stream)
    requires st.Valid() && st.pos + HeaderSize <= |st.bytes|
    requires BigEndian(st.bytes[st.pos + 8..st.pos + 12]) != Crc32(st.bytes[st.pos..st.pos + 8])
    ensures ParseFrame(st)
         == Step(Err(ParserError(Crc32(st.bytes[st.pos..st.pos + 8]), BigEndian(st.bytes[st.pos + 8..st.pos + 12]))),
                 st.(pos := st.pos + HeaderSize))
  {
    hide ParseHeader, ParsePayload, DecodeHeader, Crc32, BigEndian;
    var h := st.bytes[st.pos..st.pos + HeaderSize];
    assert h[8..12] == st.bytes[st.pos + 8..st.pos + 12] && h[..8] == st.bytes[st.pos..st.pos + 8];
    DecodeHeaderSpec(h);
    ParseHeaderSpec(st);
  }

  /** Every decoded frame passed both checksum gates over the bytes it was
      read from: its version is header byte 0, its type carries the code in
      bytes 1..3, its header checksum is the CRC-32 of the header's first
      eight bytes, its length is the one the header declares, and a
      non-empty payload's offset and data put back together are the body
      that follows the header, whose CRC-32 is the trailer after it. */
  lemma FrameLayout(st: Stream)
    requires st.Valid()
    ensures var r := ParseFrame(st);
            r.result.Ok? && r.result.value.Some? ==>
              var f := r.result.value.value;
              var n := f.header.payloadLength;
              && st.pos + FrameSize(n) <= |st.bytes|
              && f.header.version == st.bytes[st.pos]
              && Known(f.header.frameType)
              && CodeOf(f.header.frameType) == BigEndian(st.bytes[st.pos + 1..st.pos + 4]) < 0x100_0000
              && f.header.checksum == BigEndian(st.bytes[st.pos + 8..st.pos + 12]) == Crc32(st.bytes[st.pos..st.pos + 8])
              && n == BigEndian(st.bytes[st.pos + 4..st.pos + 8])
              && var body := st.bytes[st.pos + HeaderSize..st.pos + HeaderSize + n];
                 && Reassemble(f.payload) == body
                 && (n == 0 ==> f.payload == FramePayload(None, None, None))
                 && (n > 0 ==> && f.payload.checksum == Some(Crc32(body))
                               && Crc32(body) == BigEndian(st.bytes[st.pos + HeaderSize + n..st.pos + FrameSize(n)]))
  {
    hide ParseHeader, ParsePayload, DecodeHeader, SplitOffset, Crc32, BigEndian;
    if ParseFrame(st).result.Ok? && ParseFrame(st).result.value.Some? {
      var h := st.bytes[st.pos..st.pos + HeaderSize];
      assert h[8..12] == st.bytes[st.pos + 8..st.pos + 12] && h[..8] == st.bytes[st.pos..st.pos + 8];
      assert h[4..8] == st.bytes[st.pos + 4..st.pos + 8] && h[1..4] == st.bytes[st.pos + 1..st.pos + 4];
      ParseHeaderSpec(st);
      DecodeHeaderSpec(h);
      var header := ParseHeader(st).result.value.value;
      ParsePayloadSpec(ParseHeader(st).rest, header);
      var n := header.payloadLength;
      if n > 0 {
        var body := st.bytes[st.pos + HeaderSize..st.pos + HeaderSize + n];
        SplitOffsetSpec(header.frameType, body, Crc32(body));
      }
    }
  }

  /** No frame follows an `end` frame in `frames`. */
  predicate EndIsLast(frames: seq<Frame>) {
    forall i :: 0 <= i < |frames| - 1 ==> frames[i].header.frameType != End
  }

  lemma ConsEndIsLast(f: Frame, tail: seq<Frame>)
    requires f.header.frameType != End && EndIsLast(tail)
    ensures EndIsLast([f] + tail)
  {
    var frames := [f] + tail;
    forall i | 1 <= i < |frames| - 1
      ensures frames[i].header.frameType != End
    {
      assert frames[i] == tail[i - 1];
    }
  }

  /** The number of bytes `frames` occupy on the wire. */
  function WireSize(frames: seq<Frame>): nat {
    if |frames| == 0 then 0 else FrameSize(frames[0].header.payloadLength) + WireSize(frames[1..])
  }

  /** The frames decoded from a stream, the exception that stopped decoding
      (if one did), and the stream as decoding left it. */
  datatype Decoded = Decoded(frames: seq<Frame>, failure: Option<Error>, rest: Stream)

  /** `yield_frames`: frames in stream order until the stream is exhausted at
      a frame boundary, an `end` frame has been produced, or decoding fails.
      Nothing follows an `end` frame; a decoding that ends with `end`
      succeeds; and a clean stop that is not at an `end` frame is at the very
      end of the stream. The yielded frames are read back to back: decoding
      consumes at least their wire size, and exactly that when it does not
      fail, so no byte is skipped. */
  function YieldFrames(st: Stream): (d: Decoded)
    requires st.Valid()
    ensures d.rest.Valid() && d.rest.bytes == st.bytes && d.rest.closeCount == st.closeCount
    ensures st.pos + WireSize(d.frames) <= d.rest.pos
    ensures d.failure.None? ==> d.rest.pos == st.pos + WireSize(d.frames)
    ensures EndIsLast(d.frames)
    ensures |d.frames| > 0 && d.frames[|d.frames| - 1].header.frameType == End ==> d.failure.None?
    ensures d.failure.None? ==> (|d.frames| > 0 && d.frames[|d.frames| - 1].header.frameType == End) || d.rest.pos == |st.bytes|
    decreases |st.bytes| - st.pos
  {
    hide ParseHeader, ParsePayload;
    var s := ParseFrame(st);
    match s.result
    case Err(e) => Decoded([], Some(e), s.rest)
    case Ok(None) => Decoded([], None, s.rest)
    case Ok(Some(f)) =>
      if f.header.frameType == End then Decoded([f], None, s.rest)
      else
        var d := YieldFrames(s.rest);
        ConsEndIsLast(f, d.frames);
        assert ([f] + d.frames)[1..] == d.frames;
        Decoded([f] + d.frames, d.failure, d.rest)
  }
}
