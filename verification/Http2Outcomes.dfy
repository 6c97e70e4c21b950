/** What a frame comes to in any state that a connection can reach: each error, and each request. */
module Http2Outcomes {
  import opened BitStrings
  import opened HpackTable
  import opened HpackCodec
  import opened Http2Frame
  import opened Http2Wire
  import opened Http2Settings
  import opened Http2Streams

  /** A stream that takes DATA. */
  ghost predicate Receiving(c: Connection, id: U32) {
    id != 0 && id in c.streams && c.streams[id].state == Open
  }

  /** A stream that HEADERS and RST_STREAM and CONTINUATION know; stream 0 is not looked up. */
  ghost predicate Known(c: Connection, id: U32) {
    id != 0 && id in c.streams
  }

  ghost predicate Fits(c: Connection, maxPost: nat, id: U32, data: seq<Octet>)
    requires Receiving(c, id)
  {
    |data| + |c.streams[id].body| <= maxPost
  }

  /** Streams are open or half closed in every reachable state. */
  lemma ReachedStates(c: Connection, maxPost: nat, log: seq<Act>, id: U32)
    requires Inv(c, maxPost, log) && id in c.streams
    ensures c.streams[id].state == Open || c.streams[id].state == HalfClosedRemote
  {
    assert StreamOk(log, maxPost, c.lives, id, c.streams[id]);
  }

  /** A frame that completes a request: DATA that is accepted or HEADERS that can be decoded, with END_STREAM. */
  ghost predicate Completes(c: Connection, maxPost: nat, f: Frame)
    requires Ready(c.decoder)
  {
    Flag(f.flags, 0x01) &&
    match f.payload
    case Data(data) => Receiving(c, f.stream) && Fits(c, maxPost, f.stream, data)
    case Headers(_, _, _, fragment) => !Known(c, f.stream) && DecodeFromOctet(c.decoder, fragment, 0, []).Done?
    case _ => false
  }

  /** PROTOCOL_ERROR: DATA that no open stream is waiting for, HEADERS for a stream that is there, settings on
      a stream, CONTINUATION without a stream. */
  ghost predicate BreaksProtocol(c: Connection, f: Frame) {
    match f.payload
    case Data(_) => !Receiving(c, f.stream)
    case Headers(_, _, _, _) => Known(c, f.stream)
    case Settings(_) => !Flag(f.flags, 0x01) && f.stream != 0
    case Continuation(_) => !Known(c, f.stream)
    case _ => false
  }

  /** FRAME_SIZE_ERROR: a body beyond `max_post`, an acknowledgement with entries, or too small a frame limit. */
  ghost predicate BreaksSize(c: Connection, maxPost: nat, f: Frame) {
    match f.payload
    case Data(data) => Receiving(c, f.stream) && !Fits(c, maxPost, f.stream, data)
    case Settings(entries) => if Flag(f.flags, 0x01) then entries != [] else f.stream == 0 && TooSmall(entries)
    case _ => false
  }

  /** The outcome of a frame with literal error codes: 1, 6 and 9 for header compression; GOAWAY, an unknown frame
      and a refused request close without one; a PING, or a block that crashes the decoder, is undefined;
      everything else leaves the connection live. */
  lemma {:induction false} FrameOutcome(c: Connection, maxPost: nat, log: seq<Act>, f: Frame, answer: Answer)
    requires Inv(c, maxPost, log) && Ready(c.decoder)
    ensures var r := After(c, maxPost, Incoming(f, answer));
            && (r.Closing? && r.error == Some(1) <==> BreaksProtocol(c, f))
            && (r.Closing? && r.error == Some(6) <==> BreaksSize(c, maxPost, f))
            && (r.Closing? && r.error == Some(9)
                <==> f.payload.Headers? && !Known(c, f.stream)
                     && DecodeFromOctet(c.decoder, f.payload.data, 0, []).Rejected?)
            && (r.Closing? && r.error == None
                <==> f.payload.GoAway? || f.payload.Unknown? || (Completes(c, maxPost, f) && answer == Refused))
            && (r.Closing? ==> r.error in {None, Some(1), Some(6), Some(9)})
            && (r.Undefined?
                <==> || f.payload.Ping?
                     || (f.payload.Headers? && !Known(c, f.stream)
                         && DecodeFromOctet(c.decoder, f.payload.data, 0, []).Crashed?))
  {
    hide Inv, Ready, DecodeFromOctet, ApplySettings, LastValue, TooSmall;
    FlagBits(f.flags);
    if Known(c, f.stream) {
      ReachedStates(c, maxPost, log, f.stream);
    }
    if f.payload.Settings? {
      LimitInRange(c, maxPost, log);
      AppliedMeans(c, f.payload.entries);
    }
  }

  lemma LimitInRange(c: Connection, maxPost: nat, log: seq<Act>)
    requires Inv(c, maxPost, log)
    ensures c.otherMaxFrameSize <= 65536
  {
  }

  /** What HEADERS of a new stream tell: the stream is opened with the fields that its fragment decodes to in the
      connection's context, and with END_STREAM they are the request. */
  lemma {:induction false} HeadersOutcome(c: Connection, maxPost: nat, f: Frame, answer: Answer)
    requires Ready(c.decoder) && f.payload.Headers? && !Known(c, f.stream)
    requires DecodeFromOctet(c.decoder, f.payload.data, 0, []).Done?
    ensures var r, o := After(c, maxPost, Incoming(f, answer)), DecodeFromOctet(c.decoder, f.payload.data, 0, []);
            var begun := [Opened(c.lives, f.stream), Decoded(c.lives, f.stream, o.fields)];
            && r.acts == begun + (if Flag(f.flags, 0x01) then [Dispatched(c.lives, f.stream, o.fields, [])] else [])
            && (r.Live? ==> r.connection.decoder == o.context && r.connection.lives == c.lives + 1)
            && (!Flag(f.flags, 0x01) ==>
                  r == Live(c.(lives := c.lives + 1, decoder := o.context,
                               streams := c.streams[f.stream :=
                                 Stream(c.lives, Open, o.fields, Flag(f.flags, 0x04), [])]), begun))
  {
    hide Ready, DecodeFromOctet;
    FlagBits(f.flags);
    var o := DecodeFromOctet(c.decoder, f.payload.data, 0, []);
    assert [] + o.fields == o.fields;
    var s := Stream(c.lives, Open, [], false, []);
    assert c.streams[f.stream := s][f.stream := WithFields(s, o.fields, f.flags)]
        == c.streams[f.stream := WithFields(s, o.fields, f.flags)];
    assert [Opened(c.lives, f.stream)] + [Decoded(c.lives, f.stream, o.fields)]
        == [Opened(c.lives, f.stream), Decoded(c.lives, f.stream, o.fields)];
  }

  /** A request is dispatched in exactly the frames that complete one, and then the answer decides what becomes
      of its stream: gone, or half closed while the response is streamed. */
  lemma {:induction false} DispatchedExactly(c: Connection, maxPost: nat, log: seq<Act>, f: Frame, answer: Answer)
    requires Inv(c, maxPost, log) && Ready(c.decoder)
    ensures var r := After(c, maxPost, Incoming(f, answer));
            && ((exists a :: a in r.acts && a.Dispatched?) <==> Completes(c, maxPost, f))
            && (Completes(c, maxPost, f) && answer == Sent ==> r.Live? && f.stream !in r.connection.streams)
            && (Completes(c, maxPost, f) && answer == Streaming ==>
                  r.Live? && f.stream in r.connection.streams
                  && r.connection.streams[f.stream].state == HalfClosedRemote)
  {
    hide Inv, Ready, DecodeFromOctet, ApplySettings, LastValue, TooSmall;
    FlagBits(f.flags);
    var r := After(c, maxPost, Incoming(f, answer));
    if Known(c, f.stream) {
      ReachedStates(c, maxPost, log, f.stream);
    }
    if Completes(c, maxPost, f) {
      assert r.acts != [] && r.acts[|r.acts| - 1].Dispatched?;
    } else {
      assert forall a :: a in r.acts ==> !a.Dispatched?;
    }
  }
}
