/** `ResponseHandler`: drives the frame decoder over a response stream and
    hands each frame to the handler for its type. The user's callbacks
    (`handle_records`, `handle_exceptions`, `handle_stats`) are modelled as
    the events they receive, in order. The UTF-8 and JSON decoding of
    exception and stats payloads is a parameter `parse`, which returns `None`
    where Python's decoding raises and the decoded value otherwise. */
module Handler {
  import opened Results
  import opened Bytes
  import opened Exceptions
  import opened Streams
  import opened Parser

  /** A JSON value in the shape `json.loads` returns. Numbers are kept as
      integers only; floating-point numbers are not modelled. */
  datatype Json =
    | JNull
    | JBool(b: bool)
    | JNumber(n: int)
    | JString(s: string)
    | JArray(items: seq<Json>)
    | JObject(members: seq<(string, Json)>)

  /** One call of a user callback, with its argument. */
  datatype Event =
    | OnRecords(data: Option<seq<byte>>)
    | OnExceptions(doc: Json)
    | OnStats(doc: Json)

  /** The frame types whose handler calls a user callback. */
  predicate Bearing(t: FrameType) {
    t == Record || t == Exception || t == Stats
  }

  /** The frame types whose payload is decoded as a JSON document. */
  predicate Documented(t: FrameType) {
    t == Exception || t == Stats
  }

  /** Event `e` is what the handler delivers for frame `f`: the raw data for
      a record frame, the parsed document for an exception or stats frame. */
  predicate Carries(e: Event, f: Frame, parse: seq<byte> -> Option<Json>) {
    match e
    case OnRecords(data) => f.header.frameType == Record && data == f.payload.data
    case OnExceptions(doc) =>
      f.header.frameType == Exception && f.payload.data.Some? && parse(f.payload.data.value) == Some(doc)
    case OnStats(doc) =>
      f.header.frameType == Stats && f.payload.data.Some? && parse(f.payload.data.value) == Some(doc)
  }

  /** `json.loads(frame.payload.data.decode('utf-8'))`: fails with
      `MissingPayload` when there is no data and with `BadDocument` when the
      data does not parse. */
  function LoadDocument(data: Option<seq<byte>>, parse: seq<byte> -> Option<Json>): (r: Result<Json, Error>)
    ensures r.Ok? <==> data.Some? && parse(data.value).Some?
    ensures r.Ok? ==> Some(r.value) == parse(data.value)
    ensures data.None? ==> r == Err(MissingPayload)
    ensures data.Some? && parse(data.value).None? ==> r == Err(BadDocument)
  {
    match data
    case None => Err(MissingPayload)
    case Some(bytes) =>
      match parse(bytes)
      case None => Err(BadDocument)
      case Some(doc) => Ok(doc)
  }

  /** `_handle_frame`: the event the frame's handler delivers, none for
      `continuation` and `end`, and `UnknownFrameTypeError` for a type with no
      handler. It fails exactly for an unknown type and for an exception or
      stats frame whose payload is missing or does not parse; otherwise it
      delivers an event exactly for the callback-bearing types, and that
      event carries the frame. An exception or stats frame that fails lets
      the document decoding's own exception escape: `MissingPayload` for
      absent data, `BadDocument` for data that does not parse. */
  function HandleFrame(f: Frame, parse: seq<byte> -> Option<Json>): (r: Result<Option<Event>, Error>)
    ensures var t := f.header.frameType;
            r.Err? <==> t.Raw? || (Documented(t) && (f.payload.data.None? || parse(f.payload.data.value).None?))
    ensures f.header.frameType.Raw? ==> r == Err(UnknownFrameTypeError(f.header.frameType.code))
    ensures Documented(f.header.frameType) && r.Err? ==> r == Err(LoadDocument(f.payload.data, parse).error)
    ensures r.Ok? ==> (r.value.Some? <==> Bearing(f.header.frameType))
    ensures r.Ok? && r.value.Some? ==> Carries(r.value.value, f, parse)
  {
    match f.header.frameType
    case Record => Ok(Some(OnRecords(f.payload.data)))
    case Exception =>
      var doc :- LoadDocument(f.payload.data, parse);
      Ok(Some(OnExceptions(doc)))
    case Stats =>
      var doc :- LoadDocument(f.payload.data, parse);
      Ok(Some(OnStats(doc)))
    case Continuation => Ok(None)
    case End => Ok(None)
    case Raw(code) => Err(UnknownFrameTypeError(code))
  }

  function Emit(e: Option<Event>): seq<Event> {
    match e
    case Some(v) => [v]
    case None => []
  }

  /** Every frame of `frames` is handled without an exception. */
  predicate AllHandled(frames: seq<Frame>, parse: seq<byte> -> Option<Json>) {
    forall i :: 0 <= i < |frames| ==> HandleFrame(frames[i], parse).Ok?
  }

  /** The events delivered so far and the exception, if any, that stopped
      the handling. */
  datatype Handled = Handled(events: seq<Event>, failure: Option<Error>)

  /** Handling an already decoded sequence of frames in order, stopping at
      the first frame whose handler raises. At most one event per frame, and
      no failure exactly when every frame is handled. */
  function Dispatch(frames: seq<Frame>, parse: seq<byte> -> Option<Json>): (h: Handled)
    ensures |h.events| <= |frames|
    ensures h.failure.None? <==> AllHandled(frames, parse)
  {
    if |frames| == 0 then Handled([], None)
    else
      match HandleFrame(frames[0], parse)
      case Err(e) => Handled([], Some(e))
      case Ok(ev) =>
        var t := Dispatch(frames[1..], parse);
        assert AllHandled(frames, parse) <==> AllHandled(frames[1..], parse) by {
          if AllHandled(frames[1..], parse) {
            forall i | 1 <= i < |frames|
              ensures HandleFrame(frames[i], parse).Ok?
            {
              assert frames[i] == frames[1..][i - 1];
            }
          }
        }
        Handled(Emit(ev) + t.events, t.failure)
  }

  /** Handling `a + b` is handling `a` and, unless that raised, then `b`. */
  lemma {:induction false} DispatchAppend(a: seq<Frame>, b: seq<Frame>, parse: seq<byte> -> Option<Json>)
    ensures Dispatch(a + b, parse) ==
            if Dispatch(a, parse).failure.Some? then Dispatch(a, parse)
            else Handled(Dispatch(a, parse).events + Dispatch(b, parse).events, Dispatch(b, parse).failure)
  {
    hide HandleFrame;
    if |a| == 0 {
      assert a + b == b;
    } else {
      assert (a + b)[0] == a[0];
      assert (a + b)[1..] == a[1..] + b;
      DispatchAppend(a[1..], b, parse);
      if HandleFrame(a[0], parse).Ok? {
        var ev := Emit(HandleFrame(a[0], parse).value);
        var ta := Dispatch(a[1..], parse);
        assert ev + (ta.events + Dispatch(b, parse).events) == (ev + ta.events) + Dispatch(b, parse).events;
      }
    }
  }

  /** The first frame whose handler raises ends the handling: its exception
      is the one that escapes, only the frames before it deliver events, and
      no frame after it is handled. */
  lemma StopsAtFirstFailure(frames: seq<Frame>, k: nat, parse: seq<byte> -> Option<Json>)
    requires k < |frames| && AllHandled(frames[..k], parse) && HandleFrame(frames[k], parse).Err?
    ensures Dispatch(frames, parse) == Handled(Dispatch(frames[..k], parse).events, Some(HandleFrame(frames[k], parse).error))
  {
    hide HandleFrame;
    assert frames == frames[..k] + frames[k..];
    DispatchAppend(frames[..k], frames[k..], parse);
  }

  /** The frames whose handler calls a user callback, in order. */
  function Delivered(frames: seq<Frame>): (ds: seq<Frame>)
    ensures |ds| <= |frames|
  {
    if |frames| == 0 then []
    else (if Bearing(frames[0].header.frameType) then [frames[0]] else []) + Delivered(frames[1..])
  }

  /** Each delivered event carries its frame. */
  predicate AllCarry(events: seq<Event>, frames: seq<Frame>, parse: seq<byte> -> Option<Json>) {
    |events| == |frames| && forall j :: 0 <= j < |events| ==> Carries(events[j], frames[j], parse)
  }

  lemma ConsAllCarry(e: Event, f: Frame, events: seq<Event>, frames: seq<Frame>, parse: seq<byte> -> Option<Json>)
    requires Carries(e, f, parse) && AllCarry(events, frames, parse)
    ensures AllCarry([e] + events, [f] + frames, parse)
  {
    forall j | 1 <= j < |events| + 1
      ensures Carries(([e] + events)[j], ([f] + frames)[j], parse)
    {
      assert ([e] + events)[j] == events[j - 1] && ([f] + frames)[j] == frames[j - 1];
    }
  }

  /** When every frame is handled, the callbacks receive one event per
      record, exception and stats frame, in stream order, each carrying its
      frame's data or parsed document; `continuation` and `end` frames deliver
      nothing. */
  lemma {:induction false} DispatchDelivers(frames: seq<Frame>, parse: seq<byte> -> Option<Json>)
    requires AllHandled(frames, parse)
    ensures AllCarry(Dispatch(frames, parse).events, Delivered(frames), parse)
  {
    if |frames| > 0 {
      var f := frames[0];
      assert HandleFrame(f, parse).Ok?;
      assert AllHandled(frames[1..], parse) by {
        forall i | 0 <= i < |frames| - 1
          ensures HandleFrame(frames[1..][i], parse).Ok?
        {
          assert frames[1..][i] == frames[i + 1];
        }
      }
      DispatchDelivers(frames[1..], parse);
      var t := Dispatch(frames[1..], parse);
      if Bearing(f.header.frameType) {
        ConsAllCarry(HandleFrame(f, parse).value.value, f, t.events, Delivered(frames[1..]), parse);
      }
    }
  }

  /** How `handle_response` ended: normally, or by the exception it let
      escape. */
  datatype Outcome = Completed | Raised(error: Error)

  /** The events delivered, how the call ended, and the stream afterwards. */
  datatype Response = Response(events: seq<Event>, outcome: Outcome, stream: Stream)

  /** The `for` loop of `handle_response`: the decoder's generator and the
      handler interleaved, each frame handled as soon as it is decoded, so a
      raising handler stops the decoding too. */
  function Pump(st: Stream, parse: seq<byte> -> Option<Json>): (r: Response)
    requires st.Valid()
    ensures r.stream.Valid() && r.stream.bytes == st.bytes && r.stream.closeCount == st.closeCount
    ensures st.pos <= r.stream.pos
    decreases |st.bytes| - st.pos
  {
    hide ParseFrame, HandleFrame;
    var s := ParseFrame(st);
    match s.result
    case Err(e) => Response([], Raised(e), s.rest)
    case Ok(None) => Response([], Completed, s.rest)
    case Ok(Some(f)) =>
      match HandleFrame(f, parse)
      case Err(e) => Response([], Raised(e), s.rest)
      case Ok(ev) =>
        if f.header.frameType == End then Response(Emit(ev), Completed, s.rest)
        else
          var r := Pump(s.rest, parse);
          Response(Emit(ev) + r.events, r.outcome, r.stream)
  }

  /** `handle_response`: the loop, then `stream.close()` in the `finally`
      clause. The stream is closed exactly once however the loop ended, and
      nothing is read from it after the loop. */
  function HandleResponse(st: Stream, parse: seq<byte> -> Option<Json>): (r: Response)
    requires st.Valid()
    ensures r.stream.closeCount == st.closeCount + 1
    ensures r.stream.bytes == st.bytes && st.pos <= r.stream.pos <= |st.bytes|
  {
    var p := Pump(st, parse);
    Response(p.events, p.outcome, Close(p.stream))
  }

  /** The outcome of decoding then handling: the handler's exception if one
      raised, otherwise the decoder's, otherwise normal completion. */
  function Combined(d: Decoded, h: Handled): Outcome {
    if h.failure.Some? then Raised(h.failure.value)
    else if d.failure.Some? then Raised(d.failure.value)
    else Completed
  }

  /** The interleaved loop delivers exactly what handling the decoder's whole
      output would deliver, ends the same way, and, unless a handler raised,
      leaves the stream where the decoder stopped. */
  lemma {:induction false} PumpIsDispatch(st: Stream, parse: seq<byte> -> Option<Json>)
    requires st.Valid()
    ensures var d := YieldFrames(st);
            var h := Dispatch(d.frames, parse);
            && Pump(st, parse).events == h.events
            && Pump(st, parse).outcome == Combined(d, h)
            && (h.failure.None? ==> Pump(st, parse).stream == d.rest)
    decreases |st.bytes| - st.pos
  {
    hide ParseFrame, HandleFrame, Delivered;
    var s := ParseFrame(st);
    if s.result.Ok? && s.result.value.Some? {
      var f := s.result.value.value;
      if HandleFrame(f, parse).Ok? && f.header.frameType != End {
        PumpIsDispatch(s.rest, parse);
        var d := YieldFrames(s.rest);
        assert YieldFrames(st).frames == [f] + d.frames;
        assert ([f] + d.frames)[1..] == d.frames;
      }
    }
  }

  /** `handle_response` end to end: its events are those of handling the
      decoded frames, in order; it raises the first handler exception, else
      the decoder's exception, else returns normally; and the stream is
      closed once. A normal return means every decoded frame was handled and
      the events carry exactly the record, exception and stats frames. */
  lemma HandleResponseSpec(st: Stream, parse: seq<byte> -> Option<Json>)
    requires st.Valid()
    ensures var r := HandleResponse(st, parse);
            var d := YieldFrames(st);
            var h := Dispatch(d.frames, parse);
            && r.events == h.events
            && r.outcome == Combined(d, h)
            && r.stream.closeCount == st.closeCount + 1
            && (r.outcome == Completed ==> AllHandled(d.frames, parse) && AllCarry(r.events, Delivered(d.frames), parse))
  {
    hide Pump, YieldFrames, Dispatch;
    PumpIsDispatch(st, parse);
    var d := YieldFrames(st);
    if Dispatch(d.frames, parse).failure.None? {
      DispatchDelivers(d.frames, parse);
    }
  }
}
