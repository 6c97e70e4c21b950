/** A response's header block as frames: HEADERS and as many CONTINUATIONs as the peer's limit asks for. */
module HeaderFragments {
  import opened BitStrings
  import opened ByteBuffer
  import opened Http2Frame
  import opened Http2Reader

  /** The peer's limit as the settings leave it in every live connection. */
  type PeerLimit = x: int | 256 <= x <= 65536 witness 256

  /** `max_frame_size` */
  function PayloadLimit(otherMaxFrameSize: PeerLimit): (limit: nat)
    ensures limit > 0
  {
    otherMaxFrameSize - 32
  }

  /** END_HEADERS, and END_STREAM when no body follows. */
  function FinishFlags(emptyBody: bool): Octet {
    if emptyBody then 5 else 4
  }

  function ContinuationFrames(id: U32, block: seq<Octet>, limit: nat): seq<Frame>
    requires limit > 0
  {
    if block == [] then []
    else if |block| > limit then
      [Frame(0, id, Continuation(block[..limit]))] + ContinuationFrames(id, block[limit..], limit)
    else [Frame(0, id, Continuation(block))]
  }

  /** The frames in the order and with the flags in which they are sent: the source sets the finishing
      flags on the HEADERS frame, after it has been sent when the block did not fit into it. */
  function HeaderFrames(id: U32, block: seq<Octet>, limit: nat, emptyBody: bool): seq<Frame>
    requires limit > 0
  {
    if |block| > limit then
      [Frame(0, id, Headers(0, 0, 0, block[..limit]))] + ContinuationFrames(id, block[limit..], limit)
    else [Frame(FinishFlags(emptyBody), id, Headers(0, 0, 0, block))]
  }

  function Fragment(f: Frame): seq<Octet> {
    match f.payload
    case Headers(_, _, _, data) => data
    case Continuation(data) => data
    case _ => []
  }

  function Fragments(frames: seq<Frame>): seq<Octet> {
    if frames == [] then [] else Fragment(frames[0]) + Fragments(frames[1..])
  }

  /** A frame of a header block: nothing but its fragment, and no more of that than the limit. */
  predicate BlockFrame(f: Frame, id: U32, limit: nat) {
    && f.stream == id && f.flags in {0, 4, 5} && |Fragment(f)| <= limit
    && (f.payload == Headers(0, 0, 0, Fragment(f)) || f.payload == Continuation(Fragment(f)))
  }

  /** All frames but the last carry as much as the limit admits. */
  ghost predicate Full(frames: seq<Frame>, limit: nat) {
    forall i :: 0 <= i < |frames| - 1 ==> |Fragment(frames[i])| == limit
  }

  /** Conservation: the fragments make up the block, each within the limit and each CONTINUATION with
      something in it; and there are no more of them than the limit asks for. */
  lemma {:induction false} ContinuationsConserve(id: U32, block: seq<Octet>, limit: nat)
    requires limit > 0
    ensures var frames := ContinuationFrames(id, block, limit);
            && Fragments(frames) == block && Full(frames, limit)
            && (forall f :: f in frames ==>
                  BlockFrame(f, id, limit) && f.payload.Continuation? && f.flags == 0 && Fragment(f) != [])
    decreases |block|
  {
    var frames := ContinuationFrames(id, block, limit);
    if |block| > limit {
      ContinuationsConserve(id, block[limit..], limit);
      Conserved(frames[0], ContinuationFrames(id, block[limit..], limit), block, limit);
    } else if block != [] {
      assert frames[1..] == [] && block + [] == block;
    }
  }

  lemma {:induction false} Conserved(f: Frame, rest: seq<Frame>, block: seq<Octet>, limit: nat)
    requires |block| > limit && Fragment(f) == block[..limit] && Fragments(rest) == block[limit..] && Full(rest, limit)
    ensures Fragments([f] + rest) == block && Full([f] + rest, limit)
  {
    hide Fragment;
    var frames := [f] + rest;
    assert frames[1..] == rest && block == block[..limit] + block[limit..];
    assert forall i :: 1 <= i < |frames| ==> frames[i] == rest[i - 1];
  }

  lemma {:induction false} FramesConserve(id: U32, block: seq<Octet>, limit: nat, emptyBody: bool)
    requires limit > 0
    ensures var frames := HeaderFrames(id, block, limit, emptyBody);
            && Fragments(frames) == block && Full(frames, limit)
            && frames != [] && frames[0].payload.Headers?
            && (forall f :: f in frames ==> BlockFrame(f, id, limit))
            && (forall f :: f in frames[1..] ==> f.payload.Continuation? && Fragment(f) != [])
  {
    var frames := HeaderFrames(id, block, limit, emptyBody);
    if |block| > limit {
      var rest := ContinuationFrames(id, block[limit..], limit);
      ContinuationsConserve(id, block[limit..], limit);
      Conserved(frames[0], rest, block, limit);
      assert frames[1..] == rest;
    } else {
      assert frames[1..] == [] && block + [] == block;
    }
  }

  /** END_HEADERS goes out exactly when the block fits into one frame, and END_STREAM exactly when it
      does and no body follows; a block of several frames is never marked as complete. */
  lemma {:induction false} MarkedCompleteExactly(id: U32, block: seq<Octet>, limit: nat, emptyBody: bool)
    requires limit > 0
    ensures var frames := HeaderFrames(id, block, limit, emptyBody);
            && ((exists f :: f in frames && EndHeadersFlag(f.flags)) <==> |block| <= limit)
            && (EndHeadersFlag(frames[|frames| - 1].flags) <==> |block| <= limit)
            && ((exists f :: f in frames && EndStreamFlag(f.flags)) <==> |block| <= limit && emptyBody)
  {
    var frames := HeaderFrames(id, block, limit, emptyBody);
    if |block| > limit {
      ContinuationsConserve(id, block[limit..], limit);
      assert forall f :: f in frames ==> f.flags == 0;
    } else {
      assert frames[0] in frames;
    }
  }

  /** A block of 300 octets for a peer that takes frames of 256: nothing ever marks it as complete. */
  lemma LongBlockIsNeverComplete(id: U32)
    ensures var frames := HeaderFrames(id, seq(300, _ => 0), PayloadLimit(256), true);
            |frames| == 2 && frames[0].flags == 0 && frames[1].flags == 0
  {
    var block := seq(300, _ => 0);
    var limit := PayloadLimit(256);
    assert limit == 224 && |block[limit..]| == 76;
    assert ContinuationFrames(id, block[limit..], limit) == [Frame(0, id, Continuation(block[limit..]))];
  }

  // On the wire

  function AllSerialized(frames: seq<Frame>): seq<Octet> {
    if frames == [] then [] else Serialize(frames[0], 0) + AllSerialized(frames[1..])
  }

  /** A peer that keeps every frame. */
  function Keep(): Handler<seq<Frame>> {
    Handler(s => s, (s, f) => (s + [f], false))
  }

  /** The reader accepts the octets of a block frame as that frame. */
  lemma {:induction false} BlockFrameIsRead(f: Frame, id: U32, limit: nat)
    requires BlockFrame(f, id, limit) && id < TOP && limit <= MAX_FRAME_SIZE
    ensures var w := Serialize(f, 0);
            |w| == 9 + |Fragment(f)| && Read3(w) == |Fragment(f)| && Parse(w) == Accepted(f)
  {
    hide Parse, Read3, Serialize, ByteSwap;
    BlockFrameSize(f, id, limit);
    FrameRoundTrip(f, 0);
    LengthField(f, 0);
  }

  lemma BlockFrameSize(f: Frame, id: U32, limit: nat)
    requires BlockFrame(f, id, limit) && limit <= MAX_FRAME_SIZE
    ensures |Body(f, 0)| == |Fragment(f)| && |Serialize(f, 0)| == 9 + |Fragment(f)| && NoPadding(f, 0)
  {
  }

  /** A reader of the same kind at the other end delivers the frames of a non-empty block as they were. */
  lemma {:induction false} BlockFramesAreRead(r: Reader<seq<Frame>>, frames: seq<Frame>, id: U32, limit: nat)
    requires !r.closed && r.buffer == AllSerialized(frames) && id < TOP && limit <= MAX_FRAME_SIZE
    requires forall f :: f in frames ==> BlockFrame(f, id, limit) && Fragment(f) != []
    ensures Drain(Keep(), r) == Reader([], r.preface, r.state + frames, false)
    decreases |frames|
  {
    hide Parse, Read3, Serialize;
    if frames == [] {
      assert r.state + [] == r.state;
    } else {
      var f, rest := frames[0], frames[1..];
      assert f in frames;
      BlockFrameIsRead(f, id, limit);
      var w := Serialize(f, 0);
      assert r.buffer[..|w|] == w && r.buffer[|w|..] == AllSerialized(rest);
      Read3Prefix(w, AllSerialized(rest));
      BlockFramesAreRead(Reader(AllSerialized(rest), r.preface, r.state + [f], false), rest, id, limit);
      assert r.state + [f] + rest == r.state + frames;
    }
  }

  /** Whatever the peer's limit and however the octets are cut into reads, the peer puts the block
      together again. */
  lemma {:induction false} BlockArrives(id: U32, block: seq<Octet>, otherMax: PeerLimit, emptyBody: bool,
                                        segments: seq<seq<Octet>>)
    requires block != [] && 0 < id < TOP
    requires Concat(segments) == AllSerialized(HeaderFrames(id, block, PayloadLimit(otherMax), emptyBody))
    ensures var r := Run(Keep(), Reader([], true, [], false), segments);
            !r.closed && r.buffer == [] && Fragments(r.state) == block
            && r.state == HeaderFrames(id, block, PayloadLimit(otherMax), emptyBody)
  {
    hide Serialize, Drain, Run, HeaderFrames, AllSerialized;
    var limit := PayloadLimit(otherMax);
    var frames := HeaderFrames(id, block, limit, emptyBody);
    FramesConserve(id, block, limit, emptyBody);
    FirstIsNotEmpty(id, block, limit, emptyBody);
    var r := Reader([], true, [], false);
    SomethingSerialized(frames, segments);
    SegmentationIndependent(Keep(), r, segments);
    assert [] + AllSerialized(frames) == AllSerialized(frames) && [] + frames == frames;
    ReadIsDrain(r, AllSerialized(frames));
    BlockFramesAreRead(r.(buffer := AllSerialized(frames)), frames, id, limit);
  }

  lemma ReadIsDrain(r: Reader<seq<Frame>>, octets: seq<Octet>)
    requires r.preface
    ensures Read(Keep(), r, octets) == Drain(Keep(), r.(buffer := r.buffer + octets))
  {
    hide Drain;
  }

  lemma SomethingSerialized(frames: seq<Frame>, segments: seq<seq<Octet>>)
    requires frames != [] && Concat(segments) == AllSerialized(frames)
    ensures segments != []
  {
    hide Body;
    assert |Serialize(frames[0], 0)| > 0;
  }

  lemma {:induction false} FirstIsNotEmpty(id: U32, block: seq<Octet>, limit: nat, emptyBody: bool)
    requires block != [] && limit > 0
    ensures forall f :: f in HeaderFrames(id, block, limit, emptyBody) ==> Fragment(f) != []
  {
    FramesConserve(id, block, limit, emptyBody);
    var frames := HeaderFrames(id, block, limit, emptyBody);
    forall f | f in frames ensures Fragment(f) != [] {
      assert f == frames[0] || f in frames[1..];
    }
  }

  // The loop

  /** One frame more on the wire. */
  method SendFrame(frame: Frame, writeBuffer: Buffer)
    requires !frame.payload.Unknown?
    modifies writeBuffer
    ensures writeBuffer.octets == old(writeBuffer.octets) + Serialize(frame, 0)
  {
    var status := SerializeFrame(frame, writeBuffer, 0);
  }

  lemma SerializedUnfold(before: seq<Octet>, frame: Frame, rest: seq<Frame>)
    ensures before + Serialize(frame, 0) + AllSerialized(rest) == before + AllSerialized([frame] + rest)
  {
    hide Serialize;
    assert ([frame] + rest)[1..] == rest;
  }

  method SendContinuations(id: U32, block: seq<Octet>, maxFrameSize: nat, writeBuffer: Buffer)
    requires maxFrameSize > 0
    modifies writeBuffer
    ensures writeBuffer.octets == old(writeBuffer.octets) + AllSerialized(ContinuationFrames(id, block, maxFrameSize))
  {
    hide Serialize, AllSerialized;
    var headers := block;
    while |headers| > 0
      invariant writeBuffer.octets + AllSerialized(ContinuationFrames(id, headers, maxFrameSize))
             == old(writeBuffer.octets) + AllSerialized(ContinuationFrames(id, block, maxFrameSize))
      decreases |headers|
    {
      var fragment := headers;
      ghost var frames := ContinuationFrames(id, headers, maxFrameSize);
      if |headers| > maxFrameSize {
        fragment := headers[..maxFrameSize];
        headers := headers[maxFrameSize..];
      } else {
        headers := [];
      }
      var continuation := Frame(0, id, Continuation(fragment));
      assert frames == [continuation] + ContinuationFrames(id, headers, maxFrameSize);
      SerializedUnfold(writeBuffer.octets, continuation, ContinuationFrames(id, headers, maxFrameSize));
      SendFrame(continuation, writeBuffer);
    }
    NothingSerialized(writeBuffer.octets);
  }

  lemma NothingSerialized(before: seq<Octet>)
    ensures before + AllSerialized([]) == before
  {
  }

  /** The header part of `send_request_session_http2`. */
  method SendHeaderBlock(id: U32, block: seq<Octet>, otherMaxFrameSize: PeerLimit, emptyBody: bool, writeBuffer: Buffer)
    modifies writeBuffer
    ensures writeBuffer.octets
         == old(writeBuffer.octets) + AllSerialized(HeaderFrames(id, block, PayloadLimit(otherMaxFrameSize), emptyBody))
  {
    hide Serialize, AllSerialized;
    var maxFrameSize := otherMaxFrameSize - 32;
    var headers := block;
    var flags: Octet, fragment := 0, headers;
    if |headers| > maxFrameSize {
      fragment := headers[..maxFrameSize];
      headers := headers[maxFrameSize..];
    } else {
      flags := FinishFlags(emptyBody);
      headers := [];
    }
    var headerFrame := Frame(flags, id, Headers(0, 0, 0, fragment));
    assert HeaderFrames(id, block, maxFrameSize, emptyBody)
        == [headerFrame] + ContinuationFrames(id, headers, maxFrameSize);
    SerializedUnfold(writeBuffer.octets, headerFrame, ContinuationFrames(id, headers, maxFrameSize));
    SendFrame(headerFrame, writeBuffer);
    SendContinuations(id, headers, maxFrameSize, writeBuffer);
  }
}
