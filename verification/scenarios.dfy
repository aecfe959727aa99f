/** Worked responses: small streams as a producer writes them, and what
    `handle_response` makes of each. */
module Scenarios {
  import opened Results
  import opened Bytes
  import opened Checksum
  import opened Exceptions
  import opened Streams
  import opened Parser
  import opened Encoder
  import opened Handler

  /** An 8-byte record offset, big-endian 1. */
  const OffsetOne: seq<byte> := [0, 0, 0, 0, 0, 0, 0, 1]

  /** The ASCII bytes of "hello". */
  const Hello: seq<byte> := [104, 101, 108, 108, 111]

  /** Handling a stream that holds exactly the encoded messages `ms`, each
      frame carrying its message. */
  lemma DecodeMessages(ms: seq<Message>, parse: seq<byte> -> Option<Json>)
    requires AllEncodable(ms) && EndOnlyLast(ms)
    ensures var st := Open(EncodeFrames(ms));
            var d := YieldFrames(st);
            && d.failure == None
            && AllMatch(d.frames, ms)
            && HandleResponse(st, parse).events == Dispatch(d.frames, parse).events
            && HandleResponse(st, parse).outcome == Combined(d, Dispatch(d.frames, parse))
            && HandleResponse(st, parse).stream.closeCount == 1
  {
    hide EncodeFrames, YieldFrames, HandleResponse, Dispatch;
    var st := Open(EncodeFrames(ms));
    assert st.bytes[st.pos..] == EncodeFrames(ms) + [];
    YieldEncodedFrames(st, ms, []);
    HandleResponseSpec(st, parse);
  }

  /** A record frame (offset then "hello") followed by `end`: the records
      callback receives "hello" without the offset, nothing else is
      delivered, and the call returns normally with the stream closed once. */
  lemma RecordThenEnd(parse: seq<byte> -> Option<Json>)
    ensures var ms := [Message(0, Record, OffsetOne + Hello), Message(0, End, [])];
            var r := HandleResponse(Open(EncodeFrames(ms)), parse);
            r.events == [OnRecords(Some(Hello))] && r.outcome == Completed && r.stream.closeCount == 1
  {
    hide EncodeFrames, YieldFrames, HandleResponse;
    var ms := [Message(0, Record, OffsetOne + Hello), Message(0, End, [])];
    DecodeMessages(ms, parse);
    var fs := YieldFrames(Open(EncodeFrames(ms))).frames;
    assert Matches(fs[0], ms[0]) && Matches(fs[1], ms[1]);
    assert (OffsetOne + Hello)[8..] == Hello;
    assert fs[1..][1..] == [];
  }

  /** A record frame, a stats frame whose body after its offset parses to
      `doc`, then `end`: the callbacks see the record data, then `doc`. */
  lemma RecordStatsEnd(doc: Json, body: seq<byte>, parse: seq<byte> -> Option<Json>)
    requires 0 < |body| < 0x1000 && parse(body) == Some(doc)
    ensures var ms := [Message(0, Record, OffsetOne + Hello), Message(0, Stats, OffsetOne + body), Message(0, End, [])];
            var r := HandleResponse(Open(EncodeFrames(ms)), parse);
            r.events == [OnRecords(Some(Hello)), OnStats(doc)] && r.outcome == Completed
  {
    hide EncodeFrames, YieldFrames, HandleResponse;
    var ms := [Message(0, Record, OffsetOne + Hello), Message(0, Stats, OffsetOne + body), Message(0, End, [])];
    DecodeMessages(ms, parse);
    var fs := YieldFrames(Open(EncodeFrames(ms))).frames;
    assert Matches(fs[0], ms[0]) && Matches(fs[1], ms[1]) && Matches(fs[2], ms[2]);
    assert (OffsetOne + Hello)[8..] == Hello && (OffsetOne + body)[8..] == body;
    assert HandleFrame(fs[0], parse) == Ok(Some(OnRecords(Some(Hello))));
    assert HandleFrame(fs[1], parse) == Ok(Some(OnStats(doc)));
    assert HandleFrame(fs[2], parse) == Ok(None);
    assert fs[1..][1..] == [fs[2]] && fs[1..][1..][1..] == [];
    assert Dispatch(fs[1..][1..], parse) == Handled([], None);
    assert Dispatch(fs[1..], parse) == Handled([OnStats(doc)], None);
  }

  /** An exception frame, which has no offset, then `end`: the exceptions
      callback receives the parsed document of the whole body, never the raw
      bytes. */
  lemma ExceptionThenEnd(doc: Json, body: seq<byte>, parse: seq<byte> -> Option<Json>)
    requires 0 < |body| < 0x1000 && parse(body) == Some(doc)
    ensures var ms := [Message(0, Exception, body), Message(0, End, [])];
            var r := HandleResponse(Open(EncodeFrames(ms)), parse);
            r.events == [OnExceptions(doc)] && r.outcome == Completed
  {
    hide EncodeFrames, YieldFrames, HandleResponse;
    var ms := [Message(0, Exception, body), Message(0, End, [])];
    DecodeMessages(ms, parse);
    var fs := YieldFrames(Open(EncodeFrames(ms))).frames;
    assert Matches(fs[0], ms[0]) && Matches(fs[1], ms[1]);
    assert fs[1..][1..] == [];
  }

  /** An exception frame (no offset) whose body does not parse stops the
      handling with the decoding error after the records before it were
      delivered; the frames after it are never handled. */
  lemma BadExceptionDocument(body: seq<byte>, parse: seq<byte> -> Option<Json>)
    requires 0 < |body| < 0x1000 && parse(body) == None
    ensures var ms := [Message(0, Record, OffsetOne + Hello), Message(0, Exception, body), Message(0, End, [])];
            var r := HandleResponse(Open(EncodeFrames(ms)), parse);
            r.events == [OnRecords(Some(Hello))] && r.outcome == Raised(BadDocument) && r.stream.closeCount == 1
  {
    hide EncodeFrames, YieldFrames, HandleResponse;
    var ms := [Message(0, Record, OffsetOne + Hello), Message(0, Exception, body), Message(0, End, [])];
    DecodeMessages(ms, parse);
    var fs := YieldFrames(Open(EncodeFrames(ms))).frames;
    assert Matches(fs[0], ms[0]) && Matches(fs[1], ms[1]);
    assert (OffsetOne + Hello)[8..] == Hello;
  }

  /** A stats frame whose body is only its 8-byte offset has no data, so
      decoding its document fails as Python's `None.decode` does. */
  lemma StatsWithoutData(parse: seq<byte> -> Option<Json>)
    ensures var ms := [Message(0, Stats, OffsetOne), Message(0, End, [])];
            var r := HandleResponse(Open(EncodeFrames(ms)), parse);
            r.events == [] && r.outcome == Raised(MissingPayload)
  {
    hide EncodeFrames, YieldFrames, HandleResponse;
    var ms := [Message(0, Stats, OffsetOne), Message(0, End, [])];
    DecodeMessages(ms, parse);
    var fs := YieldFrames(Open(EncodeFrames(ms))).frames;
    assert Matches(fs[0], ms[0]);
  }

  /** A frame whose type code is not in the type table is decoded with its
      raw code, and its handling raises `UnknownFrameTypeError` with that
      code before any later frame is handled. */
  lemma UnknownTypeFirst(parse: seq<byte> -> Option<Json>)
    ensures var ms := [Message(0, Raw(7), []), Message(0, Record, OffsetOne + Hello), Message(0, End, [])];
            var r := HandleResponse(Open(EncodeFrames(ms)), parse);
            r.events == [] && r.outcome == Raised(UnknownFrameTypeError(7))
  {
    hide EncodeFrames, YieldFrames, HandleResponse;
    var ms := [Message(0, Raw(7), []), Message(0, Record, OffsetOne + Hello), Message(0, End, [])];
    DecodeMessages(ms, parse);
    var fs := YieldFrames(Open(EncodeFrames(ms))).frames;
    assert Matches(fs[0], ms[0]);
  }

  /** The twelve header bytes of `m` with a checksum field one more than the
      CRC-32 of the first eight, as a transmission error might leave them. */
  function CorruptHeader(m: Message): (h: seq<byte>)
    requires Encodable(m)
    ensures |h| == HeaderSize
  {
    Prelude(m) + Pack4((Crc32(Prelude(m)) as int + 1) % 0x1_0000_0000)
  }

  /** A corrupted header fails with `ParserError` naming the computed and
      the received checksum, after its twelve bytes were read. */
  lemma ParseCorruptHeader(st: Stream, m: Message)
    requires st.Valid() && Encodable(m)
    requires st.pos + HeaderSize <= |st.bytes| && st.bytes[st.pos..st.pos + HeaderSize] == CorruptHeader(m)
    ensures var crc := Crc32(Prelude(m));
            ParseFrame(st) == Step(Err(ParserError(crc, (crc as int + 1) % 0x1_0000_0000)), st.(pos := st.pos + HeaderSize))
  {
    hide ParseFrame, Crc32, Prelude;
    var crc := Crc32(Prelude(m));
    var bad := CorruptHeader(m);
    assert st.bytes[st.pos..st.pos + 8] == bad[..8] == Prelude(m);
    assert st.bytes[st.pos + 8..st.pos + 12] == bad[8..] == Pack4((crc as int + 1) % 0x1_0000_0000);
    assert Pow256(4) == 0x1_0000_0000;
    PackThenUnpack((crc as int + 1) % 0x1_0000_0000, 4);
    HeaderChecksumGate(st);
  }

  /** A record frame, then a header whose checksum does not hold: the record
      is delivered, then `ParserError` with the computed and the received
      checksum escapes, and the stream is closed once. */
  lemma RecordThenCorruptHeader(parse: seq<byte> -> Option<Json>)
    ensures var rec := Message(0, Record, OffsetOne + Hello);
            var next := Message(0, End, []);
            var crc := Crc32(Prelude(next));
            var r := HandleResponse(Open(EncodeFrame(rec) + CorruptHeader(next)), parse);
            && r.events == [OnRecords(Some(Hello))]
            && r.outcome == Raised(ParserError(crc, (crc as int + 1) % 0x1_0000_0000))
            && r.stream.closeCount == 1
  {
    hide EncodeFrame, YieldFrames, HandleResponse, ParseFrame, Crc32, Prelude, CorruptHeader;
    var rec := Message(0, Record, OffsetOne + Hello);
    var next := Message(0, End, []);
    var bad := CorruptHeader(next);
    var st := Open(EncodeFrame(rec) + bad);
    var ms := [rec];
    assert EncodeFrames(ms) == EncodeFrame(rec) + EncodeFrames(ms[1..]) == EncodeFrame(rec);
    var at := st.(pos := |EncodeFrame(rec)|);
    assert st.bytes[at.pos..at.pos + HeaderSize] == bad;
    ParseCorruptHeader(at, next);
    assert st.bytes[st.pos..] == EncodeFrames(ms) + bad;
    YieldEncodedThenFailure(st, ms, bad);
    HandleResponseSpec(st, parse);
    var fs := YieldFrames(st).frames;
    assert Matches(fs[0], rec) && fs[1..] == [];
    assert (OffsetOne + Hello)[8..] == Hello;
    assert Dispatch(fs, parse) == Handled([OnRecords(Some(Hello))], None);
  }

  /** An empty response body: no frame, no event, a normal return, and the
      stream closed once. */
  lemma EmptyResponse(parse: seq<byte> -> Option<Json>)
    ensures var r := HandleResponse(Open([]), parse);
            r.events == [] && r.outcome == Completed && r.stream.closeCount == 1
  {
  }

  /** A body cut off inside the first header: `struct.error` escapes, no
      event is delivered, and the stream is still closed. */
  lemma TruncatedHeader(bytes: seq<byte>, parse: seq<byte> -> Option<Json>)
    requires 0 < |bytes| < HeaderSize
    ensures var r := HandleResponse(Open(bytes), parse);
            r.events == [] && r.outcome == Raised(Malformed) && r.stream.closeCount == 1
  {
  }
}
