/**
 The streams of a connection: what `receive_http2_frame` does with each frame, and what this means for
 every stream over a whole run of interleaved frames.
 */
module Http2Streams {
  import opened BitStrings
  import opened HpackTable
  import opened HpackCodec
  import opened Http2Frame

  const PROTOCOL_ERROR: nat := 1
  const FRAME_SIZE_ERROR: nat := 6
  const COMPRESSION_ERROR: nat := 9

  datatype StreamState = Idle | ReservedLocal | ReservedRemote | Open | HalfClosedLocal | HalfClosedRemote | Shut

  /** `struct http2_stream`.  A stream identifier can be used again; `life` tells its uses apart. */
  datatype Stream = Stream(life: nat, state: StreamState, headers: seq<Field>, headersFinished: bool, body: seq<Octet>)

  datatype Connection = Connection(
    streams: map<U32, Stream>,
    lives: nat, // how many streams have been created
    decoder: Context,
    encoderMax: nat,
    otherMaxFrameSize: nat)

  /** What a call of `handle_http2_request` comes to: an error, a complete response, or a response body
      that is still to be streamed. */
  datatype Answer = Refused | Sent | Streaming

  datatype Act =
    | Opened(life: nat, id: U32)
    | Decoded(life: nat, id: U32, fields: seq<Field>) // header fields were added
    | Took(life: nat, id: U32, octets: seq<Octet>) // DATA was accepted
    | Dispatched(life: nat, id: U32, headers: seq<Field>, body: seq<Octet>) // `handle_http2_request` was called

  datatype Result =
    | Live(connection: Connection, acts: seq<Act>)
    | Closing(acts: seq<Act>, error: Option<nat>)
    | Undefined(acts: seq<Act>) // the source reads or writes where it must not

  /** Stream 0 is never looked up. */
  function FindStream(c: Connection, id: U32): Option<Stream> {
    if id != 0 && id in c.streams then Some(c.streams[id]) else None
  }

  // One frame

  /** `handle_http2_request`: a complete response frees the request's pool and the stream with it, which
      removes it from the map. */
  function Dispatch(c: Connection, id: U32, s: Stream, acts: seq<Act>, answer: Answer): Result {
    var told := acts + [Dispatched(s.life, id, s.headers, s.body)];
    match answer
    case Refused => Closing(told, None)
    case Sent => Live(c.(streams := c.streams - {id}), told)
    case Streaming => Live(c.(streams := c.streams[id := s.(state := HalfClosedRemote, body := [])]), told)
  }

  function ReceiveData(c: Connection, maxPost: nat, f: Frame, data: seq<Octet>, answer: Answer): Result {
    match FindStream(c, f.stream)
    case None => Closing([], Some(PROTOCOL_ERROR))
    case Some(s) =>
      if s.state != Open then Closing([], Some(PROTOCOL_ERROR))
      else if |data| + |s.body| > maxPost then Closing([], Some(FRAME_SIZE_ERROR))
      else
        var taken := s.(body := s.body + data);
        var acts := [Took(s.life, f.stream, data)];
        if EndStreamFlag(f.flags) then Dispatch(c, f.stream, taken, acts, answer)
        else Live(c.(streams := c.streams[f.stream := taken]), acts)
  }

  /** The stream of a HEADERS frame, created when it is not there. */
  function Begin(c: Connection, id: U32): (r: (Connection, seq<Act>))
    ensures id in r.0.streams && r.0.decoder == c.decoder
  {
    if FindStream(c, id).Some? then (c, [])
    else (c.(streams := c.streams[id := Stream(c.lives, Open, [], false, [])], lives := c.lives + 1),
        [Opened(c.lives, id)])
  }

  function WithFields(s: Stream, fields: seq<Field>, flags: Octet): Stream {
    s.(headers := s.headers + fields, headersFinished := s.headersFinished || EndHeadersFlag(flags))
  }

  function TakeFragment(c: Connection, id: U32, fragment: seq<Octet>, flags: Octet, answer: Answer,
                        acts: seq<Act>): Result
    requires Ready(c.decoder) && id in c.streams
  {
    match DecodeFromOctet(c.decoder, fragment, 0, [])
    case Rejected => Closing(acts, Some(COMPRESSION_ERROR))
    case Crashed => Undefined(acts)
    case Done(fields, decoder) =>
      var begun := WithFields(c.streams[id], fields, flags);
      var d := c.(streams := c.streams[id := begun], decoder := decoder);
      var told := acts + [Decoded(begun.life, id, fields)];
      if EndStreamFlag(flags) then Dispatch(d, id, begun, told, answer) else Live(d, told)
  }

  function ReceiveHeaders(c: Connection, f: Frame, fragment: seq<Octet>, answer: Answer): Result
    requires Ready(c.decoder)
  {
    var found := FindStream(c, f.stream);
    if found.Some? && found.value.state != Idle then Closing([], Some(PROTOCOL_ERROR))
    else
      var (d, acts) := Begin(c, f.stream);
      TakeFragment(d, f.stream, fragment, f.flags, answer, acts)
  }

  /** The settings in order; None when one of them closes the connection. */
  function ApplySettings(c: Connection, entries: seq<Setting>): Option<Connection>
    decreases |entries|
  {
    if entries == [] then Some(c)
    else
      var v := entries[0].value;
      if entries[0].key == 1 then ApplySettings(c.(encoderMax := v), entries[1..])
      else if entries[0].key == 5 then
        if v > 65536 then ApplySettings(c.(otherMaxFrameSize := 65536), entries[1..])
        else if v < 256 then None
        else ApplySettings(c.(otherMaxFrameSize := v), entries[1..])
      else ApplySettings(c, entries[1..])
  }

  function ReceiveSettings(c: Connection, f: Frame, entries: seq<Setting>): Result {
    if EndStreamFlag(f.flags) then // ACK
      if entries != [] then Closing([], Some(FRAME_SIZE_ERROR)) else Live(c, [])
    else if f.stream != 0 then Closing([], Some(PROTOCOL_ERROR))
    else
      match ApplySettings(c, entries)
      case None => Closing([], Some(FRAME_SIZE_ERROR))
      case Some(d) => Live(d, [])
  }

  /** The source decodes the frame as if it were HEADERS; in the memory of a CONTINUATION frame that
      payload is NULL and empty on a 64-bit host, so nothing is decoded. */
  function ReceiveContinuation(c: Connection, f: Frame): Result {
    match FindStream(c, f.stream)
    case None => Closing([], Some(PROTOCOL_ERROR))
    case Some(s) =>
      if s.state != Open && s.state != HalfClosedRemote && !s.headersFinished then Closing([], Some(PROTOCOL_ERROR))
      else
        var finished := s.(headersFinished := s.headersFinished || EndHeadersFlag(f.flags));
        Live(c.(streams := c.streams[f.stream := finished]), [])
  }

  /** `receive_http2_frame` */
  function Receive(c: Connection, maxPost: nat, f: Frame, answer: Answer): Result
    requires Ready(c.decoder)
  {
    match f.payload
    case Data(data) => ReceiveData(c, maxPost, f, data, answer)
    case Headers(_, _, _, fragment) => ReceiveHeaders(c, f, fragment, answer)
    case RstStream(_) => Live(c.(streams := c.streams - {f.stream}), [])
    case Settings(entries) => ReceiveSettings(c, f, entries)
    case Ping(_) => Undefined([]) // the reply is written through a pointer that was never set
    case GoAway(_, _) => Closing([], None)
    case Continuation(_) => ReceiveContinuation(c, f)
    case Unknown(_) => Closing([], None)
    case _ => Live(c, [])
  }

  // Runs

  /** Finished: the streamed response of a life has ended, and its stream's pool takes whatever stands under the
      identifier out of the map. */
  datatype Event = Incoming(frame: Frame, answer: Answer) | Finished(id: U32, life: nat)

  function After(c: Connection, maxPost: nat, e: Event): Result
    requires Ready(c.decoder)
  {
    match e
    case Incoming(f, answer) => Receive(c, maxPost, f, answer)
    case Finished(id, _) => Live(c.(streams := c.streams - {id}), [])
  }

  lemma {:induction false} AfterKeepsReady(c: Connection, maxPost: nat, e: Event)
    requires Ready(c.decoder)
    ensures After(c, maxPost, e).Live? ==> Ready(After(c, maxPost, e).connection.decoder)
  {
    hide Ready, DecodeFromOctet, ApplySettings;
    if e.Incoming? {
      match e.frame.payload {
        case Headers(_, _, _, fragment) => DecodingKeepsReady(c.decoder, fragment, 0, []);
        case Settings(entries) => SettingsKeep(c, entries);
        case _ =>
      }
    }
  }

  /** Settings leave everything but two limits alone, and the frame limit in its range. */
  lemma {:induction false} SettingsKeep(c: Connection, entries: seq<Setting>)
    ensures match ApplySettings(c, entries)
            case None => true
            case Some(d) =>
              && d == c.(encoderMax := d.encoderMax, otherMaxFrameSize := d.otherMaxFrameSize)
              && (256 <= c.otherMaxFrameSize <= 65536 ==> 256 <= d.otherMaxFrameSize <= 65536)
    decreases |entries|
  {
    if entries != [] {
      var v := entries[0].value;
      if entries[0].key == 1 {
        SettingsKeep(c.(encoderMax := v), entries[1..]);
      } else if entries[0].key == 5 {
        if v > 65536 {
          SettingsKeep(c.(otherMaxFrameSize := 65536), entries[1..]);
        } else if v >= 256 {
          SettingsKeep(c.(otherMaxFrameSize := v), entries[1..]);
        }
      } else {
        SettingsKeep(c, entries[1..]);
      }
    }
  }

  /** Everything that happens up to the end of the events or of the connection, and the connection if it
      is still live. */
  function Trace(c: Connection, maxPost: nat, events: seq<Event>): (r: (seq<Act>, Option<Connection>))
    requires Ready(c.decoder)
    decreases |events|
  {
    if events == [] then ([], Some(c))
    else
      AfterKeepsReady(c, maxPost, events[0]);
      match After(c, maxPost, events[0])
      case Live(d, acts) => var (rest, last) := Trace(d, maxPost, events[1..]); (acts + rest, last)
      case Closing(acts, _) => (acts, None)
      case Undefined(acts) => (acts, None)
  }

  // What holds of the acts of a run

  /** The DATA accepted for a life, in order. */
  function Gathered(log: seq<Act>, life: nat): seq<Octet> {
    if log == [] then []
    else
      var last := log[|log| - 1];
      Gathered(log[..|log| - 1], life) + (if last.Took? && last.life == life then last.octets else [])
  }

  /** The fields decoded for a life, in order. */
  function GatheredFields(log: seq<Act>, life: nat): seq<Field> {
    if log == [] then []
    else
      var last := log[|log| - 1];
      GatheredFields(log[..|log| - 1], life) + (if last.Decoded? && last.life == life then last.fields else [])
  }

  ghost predicate Ended(log: seq<Act>, life: nat) {
    exists i :: 0 <= i < |log| && log[i].Dispatched? && log[i].life == life
  }

  ghost predicate Mentioned(log: seq<Act>, life: nat) {
    exists i :: 0 <= i < |log| && log[i].life == life
  }

  /** A life opens once; fields, DATA and the dispatch come after that and before any other dispatch of it;
      and what is dispatched is all its fields and all its DATA in order, within the limit. */
  ghost predicate ActOk(before: seq<Act>, a: Act, maxPost: nat) {
    match a
    case Opened(life, _) => !Mentioned(before, life)
    case Decoded(life, id, _) => Opened(life, id) in before && !Ended(before, life)
    case Took(life, id, _) => Opened(life, id) in before && !Ended(before, life)
    case Dispatched(life, id, headers, body) =>
      && Opened(life, id) in before && !Ended(before, life)
      && headers == GatheredFields(before, life) && body == Gathered(before, life) && |body| <= maxPost
  }

  ghost predicate LogOk(log: seq<Act>, maxPost: nat) {
    forall i :: 0 <= i < |log| ==> ActOk(log[..i], log[i], maxPost)
  }

  lemma {:induction false} LogExtends(log: seq<Act>, a: Act, maxPost: nat)
    requires LogOk(log, maxPost) && ActOk(log, a, maxPost)
    ensures LogOk(log + [a], maxPost)
  {
    hide ActOk;
    var longer := log + [a];
    forall i | 0 <= i < |longer| ensures ActOk(longer[..i], longer[i], maxPost) {
      assert longer[..i] == log[..i];
      assert i == |log| ==> log[..i] == log;
    }
  }

  lemma {:induction false} GatheredExtends(log: seq<Act>, a: Act, life: nat)
    ensures Gathered(log + [a], life) == Gathered(log, life) + (if a.Took? && a.life == life then a.octets else [])
    ensures GatheredFields(log + [a], life)
         == GatheredFields(log, life) + (if a.Decoded? && a.life == life then a.fields else [])
    ensures Ended(log + [a], life) <==> Ended(log, life) || (a.Dispatched? && a.life == life)
    ensures Mentioned(log + [a], life) <==> Mentioned(log, life) || a.life == life
  {
    hide Ended, Mentioned;
    var longer := log + [a];
    assert longer[..|log|] == log && longer[|longer| - 1] == a;
    EndedExtends(log, a, life);
  }

  lemma {:induction false} EndedExtends(log: seq<Act>, a: Act, life: nat)
    ensures Ended(log + [a], life) <==> Ended(log, life) || (a.Dispatched? && a.life == life)
    ensures Mentioned(log + [a], life) <==> Mentioned(log, life) || a.life == life
  {
    var longer := log + [a];
    assert forall i :: 0 <= i < |log| ==> longer[i] == log[i];
    assert longer[|log|] == a;
  }

  lemma {:induction false} UnmentionedIsEmpty(log: seq<Act>, life: nat)
    requires !Mentioned(log, life)
    ensures Gathered(log, life) == [] && GatheredFields(log, life) == [] && !Ended(log, life)
    decreases |log|
  {
    if log != [] {
      var front := log[..|log| - 1];
      assert forall i :: 0 <= i < |front| ==> front[i] == log[i];
      UnmentionedIsEmpty(front, life);
    }
  }

  // The invariant that ties a connection to the acts so far

  ghost predicate StreamOk(log: seq<Act>, maxPost: nat, lives: nat, id: U32, s: Stream) {
    && s.life < lives && Opened(s.life, id) in log && |s.body| <= maxPost
    && match s.state
       case Open => !Ended(log, s.life) && s.body == Gathered(log, s.life) && s.headers == GatheredFields(log, s.life)
       case HalfClosedRemote => Ended(log, s.life)
       case _ => false
  }

  ghost predicate StreamsOk(log: seq<Act>, maxPost: nat, streams: map<U32, Stream>, lives: nat) {
    && (forall id :: id in streams ==> StreamOk(log, maxPost, lives, id, streams[id]))
    && (forall i, j :: i in streams && j in streams && i != j ==> streams[i].life != streams[j].life)
  }

  ghost predicate Inv(c: Connection, maxPost: nat, log: seq<Act>) {
    && LogOk(log, maxPost)
    && StreamsOk(log, maxPost, c.streams, c.lives)
    && (forall life: nat :: Mentioned(log, life) ==> life < c.lives)
    && 256 <= c.otherMaxFrameSize <= 65536
  }

  /** An act of one life leaves the streams of all others as they were. */
  lemma {:induction false} OthersKeep(log: seq<Act>, a: Act, maxPost: nat, lives: nat, id: U32, s: Stream)
    requires StreamOk(log, maxPost, lives, id, s) && s.life != a.life
    ensures StreamOk(log + [a], maxPost, lives, id, s)
  {
    GatheredExtends(log, a, s.life);
  }

  /** One stream changes, with one act of its own life. */
  lemma {:induction false} OneActs(c: Connection, maxPost: nat, log: seq<Act>, a: Act, id: U32, s: Stream, lives: nat)
    requires Inv(c, maxPost, log) && ActOk(log, a, maxPost) && a.life == s.life && c.lives <= lives
    requires forall i :: i in c.streams && i != id ==> c.streams[i].life != s.life
    requires StreamOk(log + [a], maxPost, lives, id, s)
    ensures Inv(c.(streams := c.streams[id := s], lives := lives), maxPost, log + [a])
  {
    hide ActOk, LogOk, StreamOk, Mentioned, Gathered, GatheredFields, Ended;
    LogExtends(log, a, maxPost);
    forall i | i in c.streams && i != id ensures StreamOk(log + [a], maxPost, lives, i, c.streams[i]) {
      MoreLives(log, maxPost, c.lives, lives, i, c.streams[i]);
      OthersKeep(log, a, maxPost, lives, i, c.streams[i]);
    }
    forall life: nat | Mentioned(log + [a], life) ensures life < lives {
      GatheredExtends(log, a, life);
      OwnLife(log + [a], maxPost, lives, id, s);
    }
  }

  lemma OwnLife(log: seq<Act>, maxPost: nat, lives: nat, id: U32, s: Stream)
    requires StreamOk(log, maxPost, lives, id, s)
    ensures s.life < lives
  {
  }

  lemma MoreLives(log: seq<Act>, maxPost: nat, lives: nat, more: nat, id: U32, s: Stream)
    requires StreamOk(log, maxPost, lives, id, s) && lives <= more
    ensures StreamOk(log, maxPost, more, id, s)
  {
  }

  /** Taking a stream out of the map. */
  lemma {:induction false} RemovalKeeps(c: Connection, maxPost: nat, log: seq<Act>, id: U32)
    requires Inv(c, maxPost, log)
    ensures Inv(c.(streams := c.streams - {id}), maxPost, log)
  {
    hide LogOk, StreamOk, Mentioned;
  }

  /** The stream of an identifier is dispatched. */
  lemma {:induction false} DispatchKeeps(c: Connection, maxPost: nat, log: seq<Act>, id: U32, s: Stream, answer: Answer)
    requires Inv(c, maxPost, log) && id in c.streams && c.streams[id] == s && s.state == Open
    ensures match Dispatch(c, id, s, [], answer)
            case Live(d, acts) => Inv(d, maxPost, log + acts)
            case Closing(acts, _) => LogOk(log + acts, maxPost)
            case Undefined(_) => false
  {
    hide LogOk, Gathered, GatheredFields;
    var a := Dispatched(s.life, id, s.headers, s.body);
    assert [] + [a] == [a];
    assert StreamOk(log, maxPost, c.lives, id, s);
    LogExtends(log, a, maxPost);
    var half := s.(state := HalfClosedRemote, body := []);
    GatheredExtends(log, a, s.life);
    assert StreamOk(log + [a], maxPost, c.lives, id, half);
    OneActs(c, maxPost, log, a, id, half, c.lives);
    var d := c.(streams := c.streams[id := half], lives := c.lives);
    RemovalKeeps(d, maxPost, log + [a], id);
    assert c.streams[id := half] - {id} == c.streams - {id};
  }

  lemma {:induction false} DataKeeps(c: Connection, maxPost: nat, log: seq<Act>, f: Frame, data: seq<Octet>,
                                     answer: Answer)
    requires Inv(c, maxPost, log)
    ensures match ReceiveData(c, maxPost, f, data, answer)
            case Live(d, acts) => Inv(d, maxPost, log + acts)
            case Closing(acts, _) => LogOk(log + acts, maxPost)
            case Undefined(_) => false
  {
    hide LogOk, Gathered, GatheredFields, Dispatch;
    assert log + [] == log;
    var found := FindStream(c, f.stream);
    if found.Some? && found.value.state == Open && |data| + |found.value.body| <= maxPost {
      var s := found.value;
      var taken := s.(body := s.body + data);
      var a := Took(s.life, f.stream, data);
      assert StreamOk(log, maxPost, c.lives, f.stream, s);
      GatheredExtends(log, a, s.life);
      OneActs(c, maxPost, log, a, f.stream, taken, c.lives);
      if EndStreamFlag(f.flags) {
        var d := c.(streams := c.streams[f.stream := taken], lives := c.lives);
        DispatchKeeps(d, maxPost, log + [a], f.stream, taken, answer);
        DispatchOf(c, d, f.stream, taken, a, answer, log);
      }
    }
  }

  /** Dispatching does not look at the stream it replaces, and appends to the acts before it. */
  lemma DispatchOf(c: Connection, d: Connection, id: U32, s: Stream, a: Act, answer: Answer, log: seq<Act>)
    requires d == c.(streams := c.streams[id := s])
    ensures var r, q := Dispatch(c, id, s, [a], answer), Dispatch(d, id, s, [], answer);
            && log + r.acts == log + [a] + q.acts
            && (r.Live? <==> q.Live?) && (r.Closing? <==> q.Closing?)
            && (r.Live? ==> r.connection == q.connection)
  {
    assert c.streams[id := s] - {id} == c.streams - {id};
  }

  lemma {:induction false} HeadersKeep(c: Connection, maxPost: nat, log: seq<Act>, f: Frame, fragment: seq<Octet>,
                                       answer: Answer)
    requires Inv(c, maxPost, log) && Ready(c.decoder)
    ensures match ReceiveHeaders(c, f, fragment, answer)
            case Live(d, acts) => Inv(d, maxPost, log + acts)
            case Closing(acts, _) => LogOk(log + acts, maxPost)
            case Undefined(acts) => LogOk(log + acts, maxPost)
  {
    hide LogOk, Gathered, GatheredFields, Dispatch, DecodeFromOctet, Ready;
    assert log + [] == log;
    var found := FindStream(c, f.stream);
    if found.Some? {
      assert StreamOk(log, maxPost, c.lives, f.stream, found.value);
    } else {
      var a := Opened(c.lives, f.stream);
      OpenKeeps(c, maxPost, log, f.stream);
      var o := DecodeFromOctet(c.decoder, fragment, 0, []);
      if o.Done? {
        var d := Begin(c, f.stream).0;
        var b := Decoded(c.lives, f.stream, o.fields);
        FieldsKeep(d, maxPost, log + [a], f.stream, o.fields, f.flags);
        var s := WithFields(d.streams[f.stream], o.fields, f.flags);
        var e := d.(streams := d.streams[f.stream := s], decoder := o.context);
        DecoderIsFree(e.(decoder := d.decoder), o.context, maxPost, log + [a] + [b]);
        assert log + ([a] + [b]) == log + [a] + [b];
        if EndStreamFlag(f.flags) {
          DispatchKeeps(e, maxPost, log + [a] + [b], f.stream, s, answer);
          DispatchAppends(e, f.stream, s, [a] + [b], answer, log);
        }
      }
    }
  }

  /** A new stream. */
  lemma {:induction false} OpenKeeps(c: Connection, maxPost: nat, log: seq<Act>, id: U32)
    requires Inv(c, maxPost, log) && FindStream(c, id).None?
    ensures Inv(Begin(c, id).0, maxPost, log + [Opened(c.lives, id)]) && LogOk(log + [Opened(c.lives, id)], maxPost)
  {
    hide LogOk, Gathered, GatheredFields;
    var a := Opened(c.lives, id);
    UnmentionedIsEmpty(log, c.lives);
    GatheredExtends(log, a, c.lives);
    assert forall i :: i in c.streams ==> StreamOk(log, maxPost, c.lives, i, c.streams[i]);
    OneActs(c, maxPost, log, a, id, Stream(c.lives, Open, [], false, []), c.lives + 1);
  }

  /** An open stream gets more fields. */
  lemma {:induction false} FieldsKeep(c: Connection, maxPost: nat, log: seq<Act>, id: U32, fields: seq<Field>,
                                      flags: Octet)
    requires Inv(c, maxPost, log) && id in c.streams && c.streams[id].state == Open
    ensures var s := c.streams[id];
            Inv(c.(streams := c.streams[id := WithFields(s, fields, flags)]), maxPost, log
                + [Decoded(s.life, id, fields)])
  {
    hide LogOk, Gathered, GatheredFields;
    var s := c.streams[id];
    assert StreamOk(log, maxPost, c.lives, id, s);
    GatheredExtends(log, Decoded(s.life, id, fields), s.life);
    OneActs(c, maxPost, log, Decoded(s.life, id, fields), id, WithFields(s, fields, flags), c.lives);
  }

  /** What a dispatch tells comes behind what was told before. */
  lemma DispatchAppends(c: Connection, id: U32, s: Stream, acts: seq<Act>, answer: Answer, log: seq<Act>)
    ensures var r, q := Dispatch(c, id, s, acts, answer), Dispatch(c, id, s, [], answer);
            && log + r.acts == log + acts + q.acts
            && (r.Live? <==> q.Live?) && (r.Closing? <==> q.Closing?)
            && (r.Live? ==> r.connection == q.connection)
  {
  }

  lemma DecoderIsFree(c: Connection, decoder: Context, maxPost: nat, log: seq<Act>)
    requires Inv(c, maxPost, log)
    ensures Inv(c.(decoder := decoder), maxPost, log)
  {
    hide LogOk, StreamOk, Mentioned;
  }

  lemma {:induction false} ContinuationKeeps(c: Connection, maxPost: nat, log: seq<Act>, f: Frame)
    requires Inv(c, maxPost, log)
    ensures match ReceiveContinuation(c, f)
            case Live(d, acts) => Inv(d, maxPost, log + acts)
            case Closing(acts, _) => LogOk(log + acts, maxPost)
            case Undefined(_) => false
  {
    hide LogOk, Gathered, GatheredFields, Ended, Mentioned;
    assert log + [] == log;
    var found := FindStream(c, f.stream);
    if found.Some? {
      var finished := found.value.(headersFinished := found.value.headersFinished || EndHeadersFlag(f.flags));
      assert StreamOk(log, maxPost, c.lives, f.stream, found.value);
      assert StreamOk(log, maxPost, c.lives, f.stream, finished);
    }
  }

  lemma {:induction false} AfterKeeps(c: Connection, maxPost: nat, log: seq<Act>, e: Event)
    requires Inv(c, maxPost, log) && Ready(c.decoder)
    ensures match After(c, maxPost, e)
            case Live(d, acts) => Inv(d, maxPost, log + acts)
            case Closing(acts, _) => LogOk(log + acts, maxPost)
            case Undefined(acts) => LogOk(log + acts, maxPost)
  {
    hide LogOk, StreamsOk, Mentioned, Ready, ReceiveData, ReceiveHeaders, ReceiveContinuation, ApplySettings;
    assert log + [] == log;
    match e
    case Finished(id, _) => RemovalKeeps(c, maxPost, log, id);
    case Incoming(f, answer) =>
      match f.payload {
        case Data(data) => DataKeeps(c, maxPost, log, f, data, answer);
        case Headers(_, _, _, fragment) => HeadersKeep(c, maxPost, log, f, fragment, answer);
        case RstStream(_) => RemovalKeeps(c, maxPost, log, f.stream);
        case Settings(entries) => SettingsKeep(c, entries);
        case Continuation(_) => ContinuationKeeps(c, maxPost, log, f);
        case _ =>
      }
  }

  lemma {:induction false} TraceKeeps(c: Connection, maxPost: nat, log: seq<Act>, events: seq<Event>)
    requires Inv(c, maxPost, log) && Ready(c.decoder)
    ensures var (acts, last) := Trace(c, maxPost, events);
            && LogOk(log + acts, maxPost)
            && (last.Some? ==> Inv(last.value, maxPost, log + acts) && Ready(last.value.decoder))
    decreases |events|
  {
    hide LogOk, StreamsOk, Mentioned, Ready, After;
    if events == [] {
      assert log + [] == log;
    } else {
      AfterKeepsReady(c, maxPost, events[0]);
      AfterKeeps(c, maxPost, log, events[0]);
      match After(c, maxPost, events[0])
      case Live(d, acts) =>
        TraceKeeps(d, maxPost, log + acts, events[1..]);
        var rest := Trace(d, maxPost, events[1..]).0;
        assert log + (acts + rest) == log + acts + rest;
      case _ =>
    }
  }

  /** A connection as `accept` sets it up. */
  function NewConnection(): (c: Connection)
    ensures Ready(c.decoder)
  {
    Connection(map[], 0, EmptyContext(4096), 4096, 65536)
  }

  lemma NewIsSound(maxPost: nat)
    ensures Inv(NewConnection(), maxPost, [])
  {
  }

  /** Over every run of interleaved frames and finished responses: each life of a stream is dispatched at
      most once, no DATA is accepted for it afterwards, and what is dispatched is all of its own DATA in
      order, at most `maxPost` octets.  In every live state the peer's frame limit is in its range. */
  lemma {:induction false} EveryRunIsDisciplined(maxPost: nat, events: seq<Event>)
    ensures var (acts, last) := Trace(NewConnection(), maxPost, events);
            && LogOk(acts, maxPost)
            && (last.Some? ==> 256 <= last.value.otherMaxFrameSize <= 65536)
  {
    hide Ready, LogOk, Trace, StreamsOk;
    var c := NewConnection();
    NewIsSound(maxPost);
    TraceKeeps(c, maxPost, [], events);
    var acts := Trace(c, maxPost, events).0;
    assert [] + acts == acts;
  }

  // Single steps

  /** DATA is accepted exactly on an open stream whose body stays within the limit, and it is that
      frame's payload; a frame of DATA in any other place closes the connection. */
  lemma {:induction false} DataIsAcceptedExactly(c: Connection, maxPost: nat, e: Event, life: nat, id: U32,
                                                 octets: seq<Octet>)
    requires Ready(c.decoder)
    ensures Took(life, id, octets) in After(c, maxPost, e).acts
       <==> && e.Incoming? && e.frame.payload == Data(octets) && e.frame.stream == id && id != 0 && id in c.streams
            && c.streams[id].state == Open && c.streams[id].life == life && |octets| + |c.streams[id].body| <= maxPost
    ensures e.Incoming? && e.frame.payload.Data? && After(c, maxPost, e).acts == [] ==> After(c, maxPost, e).Closing?
  {
    hide Ready, DecodeFromOctet, ApplySettings;
    if e.Incoming? && e.frame.payload.Headers? {
      var r := After(c, maxPost, e);
      assert forall a :: a in r.acts ==> !a.Took?;
    }
  }

  ghost predicate DispatchedIn(life: nat, id: U32, acts: seq<Act>) {
    exists headers, body :: Dispatched(life, id, headers, body) in acts
  }

  /** What becomes of a stream in one step of a connection that stays live: an open stream stays open, or
      its request is dispatched, or its entry is reset, taken out by the end of another life's response or,
      for stream 0, replaced; and no stream becomes half closed without its request being dispatched in that step. */
  lemma {:induction false} DispatchIsTheTransition(c: Connection, maxPost: nat, log: seq<Act>, e: Event, id: U32)
    requires Inv(c, maxPost, log) && Ready(c.decoder) && After(c, maxPost, e).Live?
    ensures var d, acts := After(c, maxPost, e).connection, After(c, maxPost, e).acts;
            && (&& id in c.streams && c.streams[id].state == Open
                && !(id in d.streams && d.streams[id].life == c.streams[id].life && d.streams[id].state == Open) ==>
                 || DispatchedIn(c.streams[id].life, id, acts)
                 || (e.Finished? && e.id == id && (Ended(log, e.life) ==> e.life != c.streams[id].life))
                 || (e.Incoming? && e.frame.stream == id && e.frame.payload.RstStream?)
                 || (e.Incoming? && e.frame.stream == id == 0 && e.frame.payload.Headers?))
            && (id in d.streams && d.streams[id].state == HalfClosedRemote ==>
                 || DispatchedIn(d.streams[id].life, id, acts)
                 || (id in c.streams && c.streams[id].state == HalfClosedRemote
                     && c.streams[id].life == d.streams[id].life))
  {
    hide Ready, DecodeFromOctet, ApplySettings, LogOk, StreamOk, Mentioned;
    if id in c.streams {
      OpenHasNotEnded(log, maxPost, c.lives, id, c.streams[id]);
    }
    if e.Incoming? {
      match e.frame.payload {
        case Settings(entries) => SettingsKeep(c, entries);
        case Data(data) => DataTransition(c, maxPost, e.frame, data, e.answer, id);
        case Headers(_, _, _, fragment) => HeadersTransition(c, maxPost, log, e.frame, fragment, e.answer, id);
        case _ =>
      }
    }
  }

  lemma OpenHasNotEnded(log: seq<Act>, maxPost: nat, lives: nat, id: U32, s: Stream)
    requires StreamOk(log, maxPost, lives, id, s)
    ensures s.life < lives && (s.state == Open ==> !Ended(log, s.life))
  {
  }

  lemma {:induction false} DataTransition(c: Connection, maxPost: nat, f: Frame, data: seq<Octet>, answer: Answer,
                                          id: U32)
    requires ReceiveData(c, maxPost, f, data, answer).Live?
    ensures var r := ReceiveData(c, maxPost, f, data, answer);
            var d := r.connection;
            if id != f.stream then
              (id in d.streams <==> id in c.streams) && (id in d.streams ==> d.streams[id] == c.streams[id])
            else if EndStreamFlag(f.flags) then
              && id in c.streams && DispatchedIn(c.streams[id].life, id, r.acts)
              && (id in d.streams ==> d.streams[id].life == c.streams[id].life)
            else
              && id in d.streams && id in c.streams
              && d.streams[id].state == Open && d.streams[id].life == c.streams[id].life
  {
    var s := c.streams[f.stream];
    var body := s.body + data;
    var r := ReceiveData(c, maxPost, f, data, answer);
    if EndStreamFlag(f.flags) {
      assert r.acts == [Took(s.life, f.stream, data)] + [Dispatched(s.life, f.stream, s.headers, body)];
      assert r.acts[1] == Dispatched(s.life, f.stream, s.headers, body);
    }
  }

  lemma {:induction false} HeadersTransition(c: Connection, maxPost: nat, log: seq<Act>, f: Frame,
                                             fragment: seq<Octet>, answer: Answer, id: U32)
    requires Inv(c, maxPost, log) && Ready(c.decoder) && ReceiveHeaders(c, f, fragment, answer).Live?
    ensures var r := ReceiveHeaders(c, f, fragment, answer);
            var d := r.connection;
            if id != f.stream then
              (id in d.streams <==> id in c.streams) && (id in d.streams ==> d.streams[id] == c.streams[id])
            else && (id in c.streams ==> id == 0)
                 && (id in d.streams && d.streams[id].state == HalfClosedRemote ==>
                     DispatchedIn(d.streams[id].life, id, r.acts))
  {
    hide Ready, DecodeFromOctet, LogOk, Mentioned;
    var r := ReceiveHeaders(c, f, fragment, answer);
    if f.stream in c.streams {
      assert StreamOk(log, maxPost, c.lives, f.stream, c.streams[f.stream]);
    }
    if EndStreamFlag(f.flags) {
      var fields := DecodeFromOctet(c.decoder, fragment, 0, []).fields;
      assert [] + fields == fields;
      assert r.acts == [Opened(c.lives, f.stream)] + [Decoded(c.lives, f.stream, fields)]
          + [Dispatched(c.lives, f.stream, fields, [])];
      assert r.acts[2] == Dispatched(c.lives, f.stream, fields, []);
    }
  }

  /** The map is cleaned up by identifier, not by stream: when an identifier is used again after
      RST_STREAM while its first response is still being streamed, the end of that response removes the
      second stream, which is open and has not been dispatched. */
  lemma LateFinishRemovesSuccessor(maxPost: nat)
    ensures var request := Headers(0, 0, 0, []);
            var events := [Incoming(Frame(5, 1, request), Streaming), Incoming(Frame(0, 1, RstStream(0)), Sent),
                           Incoming(Frame(4, 1, request), Sent), Finished(1, 0)];
            var (acts, last) := Trace(NewConnection(), maxPost, events);
            && acts == [Opened(0, 1), Decoded(0, 1, []), Dispatched(0, 1, [], []), Opened(1, 1), Decoded(1, 1, [])]
            && last.Some? && last.value.streams == map[]
  {
    hide Ready, ReceiveHeaders, ReceiveData, ApplySettings, Trace;
    var request := Headers(0, 0, 0, []);
    var e0, e1 := Incoming(Frame(5, 1, request), Streaming), Incoming(Frame(0, 1, RstStream(0)), Sent);
    var e2, e3 := Incoming(Frame(4, 1, request), Sent), Finished(1, 0);
    var c0 := NewConnection();
    NewStream(c0, maxPost, 5, 1, Streaming);
    var c1 := c0.(streams := map[1 := Stream(0, HalfClosedRemote, [], true, [])], lives := 1);
    assert c0.streams == map[] && EndStreamFlag(5) && EndHeadersFlag(5);
    assert After(c0, maxPost, e0) == Live(c1, [Opened(0, 1), Decoded(0, 1, []), Dispatched(0, 1, [], [])]);
    TraceOne(c0, maxPost, e0, [e1, e2, e3]);
    var c2 := c1.(streams := map[]);
    assert After(c1, maxPost, e1) == Live(c2, []);
    TraceOne(c1, maxPost, e1, [e2, e3]);
    NewStream(c2, maxPost, 4, 1, Sent);
    var c3 := c2.(streams := map[1 := Stream(1, Open, [], true, [])], lives := 2);
    assert After(c2, maxPost, e2) == Live(c3, [Opened(1, 1), Decoded(1, 1, [])]);
    TraceOne(c2, maxPost, e2, [e3]);
    assert After(c3, maxPost, e3) == Live(c3.(streams := map[]), []);
    TraceOne(c3, maxPost, e3, []);
    NoEvents(c3.(streams := map[]), maxPost);
    assert [e0] + [e1, e2, e3] == [e0, e1, e2, e3];
    assert [e1] + [e2, e3] == [e1, e2, e3] && [e2] + [e3] == [e2, e3] && [e3] + [] == [e3];
  }

  lemma NoEvents(c: Connection, maxPost: nat)
    requires Ready(c.decoder)
    ensures Trace(c, maxPost, []) == ([], Some(c))
  {
  }

  /** A new stream whose first frame carries no fields. */
  lemma NewStream(c: Connection, maxPost: nat, flags: Octet, id: U32, answer: Answer)
    requires Ready(c.decoder) && id !in c.streams
    ensures var s := Stream(c.lives, Open, [], EndHeadersFlag(flags), []);
            var d := c.(streams := c.streams[id := s], lives := c.lives + 1);
            After(c, maxPost, Incoming(Frame(flags, id, Headers(0, 0, 0, [])), answer))
            == var acts := [Opened(c.lives, id), Decoded(c.lives, id, [])];
               if EndStreamFlag(flags) then Dispatch(d, id, s, acts, answer) else Live(d, acts)
  {
    hide Ready, DecodeStep;
    assert DecodeFromOctet(c.decoder, [], 0, []) == Done([], c.decoder);
    var s := Stream(c.lives, Open, [], false, []);
    assert s.headers + [] == [];
  }

  lemma TraceOne(c: Connection, maxPost: nat, e: Event, rest: seq<Event>)
    requires Ready(c.decoder) && After(c, maxPost, e).Live?
    ensures var r := After(c, maxPost, e);
            && Ready(r.connection.decoder)
            && Trace(c, maxPost, [e] + rest)
               == (r.acts + Trace(r.connection, maxPost, rest).0, Trace(r.connection, maxPost, rest).1)
  {
    hide Ready, After;
    AfterKeepsReady(c, maxPost, e);
    assert ([e] + rest)[1..] == rest;
  }
}
