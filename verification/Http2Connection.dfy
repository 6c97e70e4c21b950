/** `struct http2_server_extra` and its streams: frames handled in place, each against its specification. */
module Http2Connection {
  import opened BitStrings
  import opened HpackTable
  import opened HpackCodec
  import opened HpackContext
  import opened Http2Frame
  import opened Http2Streams

  class StreamRecord {
    const identifier: U32
    ghost const life: nat
    var state: StreamState
    var headers: seq<Field>
    var headersFinished: bool
    var dataBuffer: seq<Octet>

    constructor (identifier: U32, ghost life: nat)
      ensures this.identifier == identifier && Model() == Stream(life, Open, [], false, [])
    {
      this.identifier, this.life := identifier, life;
      state, headers, headersFinished, dataBuffer := Open, [], false, [];
    }

    ghost function Model(): Stream
      reads this
    {
      Stream(life, state, headers, headersFinished, dataBuffer)
    }
  }

  datatype Status = Continue | Close(error: Option<nat>) | Fault

  /** What a handler did, compared with its specification. */
  ghost predicate Agrees(r: Result, status: Status, c: Connection, acts: seq<Act>) {
    match r
    case Live(d, told) => status == Continue && c == d && acts == told
    case Closing(told, error) => status == Close(error) && acts == told
    case Undefined(told) => status == Status.Fault && acts == told
  }

  class ServerConnection {
    var streams: map<U32, StreamRecord>
    var otherMaxFrameSize: nat
    const sendHpackCtx: HpackCtx // decodes the peer's headers
    const recvHpackCtx: HpackCtx // encodes responses
    const maxPost: nat
    ghost var lives: nat

    ghost predicate Valid()
      reads this, sendHpackCtx, recvHpackCtx, streams.Values
    {
      && sendHpackCtx != recvHpackCtx
      && Ready(sendHpackCtx.Model())
      && (forall id :: id in streams ==> streams[id].identifier == id)
    }

    ghost function StreamModels(): map<U32, Stream>
      reads this, streams.Values
    {
      map id | id in streams :: streams[id].Model()
    }

    ghost function Model(): Connection
      reads this, sendHpackCtx, recvHpackCtx, streams.Values
    {
      Connection(StreamModels(), lives, sendHpackCtx.Model(), recvHpackCtx.maxDynamicSize, otherMaxFrameSize)
    }

    constructor (maxPost: nat)
      ensures Valid() && fresh(sendHpackCtx) && fresh(recvHpackCtx) && streams == map[]
      ensures Model() == NewConnection() && this.maxPost == maxPost
    {
      streams, otherMaxFrameSize, lives := map[], 65536, 0;
      this.maxPost := maxPost;
      sendHpackCtx := new HpackCtx(4096);
      recvHpackCtx := new HpackCtx(4096);
    }

    /** `handle_http2_request`; `answer` is what the modules and the vhost make of the request. */
    method HandleRequest(stream: StreamRecord, answer: Answer, ghost acts: seq<Act>)
      returns (status: Status, ghost told: seq<Act>)
      requires Valid() && stream.identifier in streams && streams[stream.identifier] == stream
      requires stream.state == HalfClosedRemote
      modifies this`streams, stream
      ensures status == Continue ==> Valid() && streams.Values <= old(streams.Values)
      ensures Agrees(Dispatch(old(Model()), stream.identifier, old(stream.Model()), acts, answer), status, Model(),
          told)
    {
      hide Ready;
      told := acts + [Dispatched(stream.life, stream.identifier, stream.headers, stream.dataBuffer)];
      ghost var before := StreamModels();
      if answer == Refused {
        return Close(None), told;
      }
      stream.dataBuffer := [];
      if answer == Sent {
        streams := streams - {stream.identifier};
        assert StreamModels() == before - {stream.identifier};
      } else {
        assert StreamModels() == before[stream.identifier := stream.Model()];
      }
      return Continue, told;
    }

    /** END_STREAM: the stream is half closed and its request dispatched. */
    method EndOfStream(stream: StreamRecord, answer: Answer, ghost acts: seq<Act>)
      returns (status: Status, ghost told: seq<Act>)
      requires Valid() && stream.identifier in streams && streams[stream.identifier] == stream
      modifies this`streams, stream
      ensures status == Continue ==> Valid() && streams.Values <= old(streams.Values)
      ensures Agrees(Dispatch(old(Model()), stream.identifier, old(stream.Model()), acts, answer), status, Model(),
          told)
    {
      hide Ready, Dispatch, Agrees;
      ghost var before, taken := Model(), stream.Model();
      stream.state := HalfClosedRemote;
      assert StreamModels() == before.streams[stream.identifier := stream.Model()];
      DispatchOverwrites(before, stream.Model(), taken, stream.identifier, acts, answer);
      status, told := HandleRequest(stream, answer, acts);
    }

    method HandleData(frame: Frame, data: seq<Octet>, answer: Answer) returns (status: Status, ghost acts: seq<Act>)
      requires Valid()
      modifies this`streams, streams.Values
      ensures status == Continue ==> Valid() && streams.Values <= old(streams.Values)
      ensures Agrees(ReceiveData(old(Model()), maxPost, frame, data, answer), status, Model(), acts)
    {
      hide Ready, Dispatch;
      ghost var before := Model();
      if frame.stream == 0 || frame.stream !in streams {
        return Close(Some(PROTOCOL_ERROR)), [];
      }
      var stream := streams[frame.stream];
      if stream.state != Open {
        return Close(Some(PROTOCOL_ERROR)), [];
      }
      if |data| + |stream.dataBuffer| > maxPost {
        return Close(Some(FRAME_SIZE_ERROR)), [];
      }
      stream.dataBuffer := stream.dataBuffer + data;
      acts := [Took(stream.life, frame.stream, data)];
      assert StreamModels() == before.streams[frame.stream := stream.Model()];
      if EndStreamFlag(frame.flags) {
        DispatchReplaces(before, stream.Model(), frame.stream, acts, answer);
        status, acts := EndOfStream(stream, answer, acts);
      } else {
        status := Continue;
      }
    }

    /** The stream of a HEADERS frame, created when it is not there. */
    method FindOrOpen(id: U32) returns (stream: StreamRecord, ghost acts: seq<Act>)
      requires Valid()
      modifies this`streams, this`lives
      ensures Valid() && fresh(streams.Values - old(streams.Values))
      ensures id in streams && stream == streams[id] && stream.identifier == id
      ensures (Model(), acts) == Begin(old(Model()), id)
    {
      hide Ready;
      acts := [];
      if id != 0 && id in streams {
        return streams[id], [];
      }
      ghost var before := StreamModels();
      stream := new StreamRecord(id, lives);
      acts := [Opened(lives, id)];
      lives := lives + 1;
      streams := streams[id := stream];
      assert StreamModels() == before[id := stream.Model()];
    }

    /** `hpack_decode` into the stream's headers. */
    method DecodeInto(stream: StreamRecord, fragment: seq<Octet>, flags: Octet)
      returns (status: Status, ghost fields: seq<Field>)
      requires Valid() && stream.identifier in streams && streams[stream.identifier] == stream
      modifies stream, sendHpackCtx
      ensures match DecodeFromOctet(old(sendHpackCtx.Model()), fragment, 0, [])
              case Rejected => status == Close(Some(COMPRESSION_ERROR))
              case Crashed => status == Status.Fault
              case Done(decoded, decoder) =>
                var begun := WithFields(old(stream.Model()), decoded, flags);
                && fields == decoded && status == Continue && Valid() && stream.Model() == begun
                && Model() == old(Model()).(streams := old(StreamModels())[stream.identifier := begun],
                    decoder := decoder)
    {
      hide Ready, DecodeFromOctet;
      ghost var before := StreamModels();
      DecodingKeepsReady(sendHpackCtx.Model(), fragment, 0, []);
      var verdict := sendHpackCtx.Decode(fragment);
      assert StreamModels() == before;
      if verdict.One? {
        return Close(Some(COMPRESSION_ERROR)), [];
      }
      if verdict.Fault? {
        return Status.Fault, [];
      }
      stream.headers := stream.headers + verdict.fields;
      if EndHeadersFlag(flags) {
        stream.headersFinished := true;
      }
      assert StreamModels() == before[stream.identifier := stream.Model()];
      return Continue, verdict.fields;
    }

    method HandleHeaders(frame: Frame, fragment: seq<Octet>, answer: Answer)
      returns (status: Status, ghost acts: seq<Act>)
      requires Valid()
      modifies this, sendHpackCtx, streams.Values
      ensures status == Continue ==> Valid() && fresh(streams.Values - old(streams.Values))
      ensures Agrees(ReceiveHeaders(old(Model()), frame, fragment, answer), status, Model(), acts)
    {
      hide Ready, TakeFragment, Begin, Agrees;
      if frame.stream != 0 && frame.stream in streams && streams[frame.stream].state != Idle {
        RefusalAgrees(Model(), PROTOCOL_ERROR);
        return Close(Some(PROTOCOL_ERROR)), [];
      }
      var stream;
      stream, acts := FindOrOpen(frame.stream);
      status, acts := HandleFragment(stream, fragment, frame.flags, answer, acts);
    }

    /** The fragment of a HEADERS frame whose stream is there. */
    method HandleFragment(stream: StreamRecord, fragment: seq<Octet>, flags: Octet, answer: Answer,
                          ghost acts: seq<Act>)
      returns (status: Status, ghost told: seq<Act>)
      requires Valid() && stream.identifier in streams && streams[stream.identifier] == stream
      modifies this`streams, stream, sendHpackCtx
      ensures status == Continue ==> Valid() && streams.Values <= old(streams.Values)
      ensures Agrees(TakeFragment(old(Model()), stream.identifier, fragment, flags, answer, acts), status, Model(),
          told)
    {
      hide Ready, Dispatch, DecodeFromOctet, WithFields;
      ghost var fields;
      told := acts;
      status, fields := DecodeInto(stream, fragment, flags);
      if status == Continue {
        told := told + [Decoded(stream.life, stream.identifier, fields)];
        if EndStreamFlag(flags) {
          status, told := EndOfStream(stream, answer, told);
        }
      }
    }

    method HandleSettings(frame: Frame, entries: seq<Setting>) returns (status: Status)
      requires Valid()
      modifies this`otherMaxFrameSize, recvHpackCtx
      ensures status == Continue ==> Valid()
      ensures Agrees(ReceiveSettings(old(Model()), frame, entries), status, Model(), [])
    {
      hide Ready;
      if EndStreamFlag(frame.flags) {
        return if entries != [] then Close(Some(FRAME_SIZE_ERROR)) else Continue;
      }
      if frame.stream != 0 {
        return Close(Some(PROTOCOL_ERROR));
      }
      assert entries[0..] == entries;
      for i := 0 to |entries|
        invariant Valid() && StreamModels() == old(StreamModels()) && sendHpackCtx.Model() == old(sendHpackCtx.Model())
        invariant ApplySettings(Model(), entries[i..]) == ApplySettings(old(Model()), entries)
      {
        assert entries[i..][1..] == entries[i + 1..];
        var value := entries[i].value;
        if entries[i].key == 1 {
          recvHpackCtx.maxDynamicSize := value;
          recvHpackCtx.currentMaxDynamicSize := value;
        } else if entries[i].key == 5 {
          otherMaxFrameSize := value;
          if value > 65536 {
            otherMaxFrameSize := 65536;
          } else if value < 256 {
            return Close(Some(FRAME_SIZE_ERROR));
          }
        }
      }
      return Continue;
    }

    method HandleContinuation(frame: Frame) returns (status: Status)
      requires Valid()
      modifies streams.Values
      ensures status == Continue ==> Valid()
      ensures Agrees(ReceiveContinuation(old(Model()), frame), status, Model(), [])
    {
      hide Ready;
      ghost var before := Model();
      if frame.stream == 0 || frame.stream !in streams {
        return Close(Some(PROTOCOL_ERROR));
      }
      var stream := streams[frame.stream];
      if stream.state != Open && stream.state != HalfClosedRemote && !stream.headersFinished {
        return Close(Some(PROTOCOL_ERROR));
      }
      if EndHeadersFlag(frame.flags) {
        stream.headersFinished := true;
      }
      assert StreamModels() == before.streams[frame.stream := stream.Model()];
      return Continue;
    }

    /** `_hashmap_remove_callback` and the removal on RST_STREAM. */
    method Remove(id: U32)
      requires Valid()
      modifies this`streams
      ensures Valid() && streams.Values <= old(streams.Values)
      ensures Model() == old(Model()).(streams := old(Model()).streams - {id})
    {
      hide Ready;
      ghost var before := StreamModels();
      streams := streams - {id};
      assert StreamModels() == before - {id};
    }

    /** `receive_http2_frame` */
    method ReceiveFrame(frame: Frame, answer: Answer) returns (status: Status, ghost acts: seq<Act>)
      requires Valid()
      modifies this, sendHpackCtx, recvHpackCtx, streams.Values
      ensures status == Continue ==> Valid() && fresh(streams.Values - old(streams.Values))
      ensures Agrees(Receive(old(Model()), maxPost, frame, answer), status, Model(), acts)
    {
      hide Ready, ReceiveData, ReceiveHeaders, ReceiveSettings, ReceiveContinuation;
      acts := [];
      match frame.payload {
        case Data(data) => status, acts := HandleData(frame, data, answer);
        case Headers(_, _, _, fragment) => status, acts := HandleHeaders(frame, fragment, answer);
        case RstStream(_) =>
          Remove(frame.stream);
          status := Continue;
        case Settings(entries) => status := HandleSettings(frame, entries);
        case Ping(_) => status := Status.Fault;
        case GoAway(_, _) => status := Close(None);
        case Continuation(_) => status := HandleContinuation(frame);
        case Unknown(_) => status := Close(None);
        case _ => status := Continue;
      }
    }
  }

  lemma RefusalAgrees(c: Connection, error: nat)
    ensures Agrees(Closing([], Some(error)), Close(Some(error)), c, [])
  {
  }

  /** Dispatching depends neither on the entry it replaces nor on the state the stream came from. */
  lemma DispatchOverwrites(c: Connection, half: Stream, s: Stream, id: U32, acts: seq<Act>, answer: Answer)
    requires half == s.(state := HalfClosedRemote)
    ensures Dispatch(c, id, s, acts, answer) == Dispatch(c.(streams := c.streams[id := half]), id, half, acts, answer)
  {
    assert c.streams[id := half] - {id} == c.streams - {id};
  }

  lemma DispatchReplaces(c: Connection, s: Stream, id: U32, acts: seq<Act>, answer: Answer)
    ensures Dispatch(c, id, s, acts, answer) == Dispatch(c.(streams := c.streams[id := s]), id, s, acts, answer)
  {
    assert c.streams[id := s] - {id} == c.streams - {id};
  }
}
