/**
 The incremental frame reader `handle_http2_server_read`: how a stream of octets is cut into reads
 makes no difference to the frames that are delivered.
 */
module Http2Reader {
  import opened BitStrings
  import opened Http2Frame
  import opened ByteBuffer

  /** `our_max_frame_size` */
  const MAX_FRAME_SIZE: nat := 65536

  /** "PRI * HTTP/2.0", two line ends, "SM", two line ends. */
  const PREFACE: seq<Octet> := [80, 82, 73, 32, 42, 32, 72, 84, 84, 80, 47, 50, 46, 48, 13, 10, 13, 10, 83, 77, 13,
      10, 13, 10]

  /** What a connection does with its start and with each frame: a new state, and whether to close. */
  datatype Handler<!S> = Handler(start: S -> S, receive: (S, Frame) -> (S, bool))

  /** A reader between two reads. */
  datatype Reader<S> = Reader(buffer: seq<Octet>, preface: bool, state: S, closed: bool)

  // One read

  /** The frame loop.  A frame that the parser refuses closes the connection. */
  function Drain<S>(h: Handler<S>, r: Reader<S>): (d: Reader<S>)
    ensures d.preface == r.preface && |d.buffer| <= |r.buffer|
    decreases |r.buffer|
  {
    if |r.buffer| <= 9 then r
    else
      var size := Read3(r.buffer);
      if size > MAX_FRAME_SIZE then r.(closed := true)
      else if |r.buffer| < size + 9 then r
      else
        var rest := r.buffer[size + 9..];
        match Parse(r.buffer[..size + 9])
        case Accepted(f) =>
          var (state, close) := h.receive(r.state, f);
          if close then Reader(rest, r.preface, state, true)
          else Drain(h, Reader(rest, r.preface, state, r.closed))
        case _ => Reader(rest, r.preface, r.state, true)
  }

  /** The preface check, which the frame loop follows even when the preface is still incomplete. */
  function Read<S>(h: Handler<S>, r: Reader<S>, segment: seq<Octet>): Reader<S> {
    var pushed := r.(buffer := r.buffer + segment);
    if !r.preface && |pushed.buffer| >= 24 then
      var popped := pushed.(buffer := pushed.buffer[24..]);
      if pushed.buffer[..24] != PREFACE then popped.(closed := true)
      else Drain(h, popped.(preface := true, state := h.start(r.state)))
    else Drain(h, pushed)
  }

  // Runs

  /** Reads one segment after the other until the connection closes; what is then left unread stands
      behind the buffer. */
  ghost function Run<S>(h: Handler<S>, r: Reader<S>, segments: seq<seq<Octet>>): Reader<S>
    decreases |segments|
  {
    if r.closed then r.(buffer := r.buffer + Concat(segments))
    else if segments == [] then r
    else Run(h, Read(h, r, segments[0]), segments[1..])
  }

  // The frame loop does not care where its buffer was cut

  lemma {:induction false} DrainSplit<S>(h: Handler<S>, r: Reader<S>, more: seq<Octet>)
    requires !r.closed
    ensures var d := Drain(h, r);
            Drain(h, r.(buffer := r.buffer + more))
              == if d.closed then d.(buffer := d.buffer + more) else Drain(h, d.(buffer := d.buffer + more))
    decreases |r.buffer|
  {
    hide Parse, Read3;
    var longer := r.(buffer := r.buffer + more);
    if |r.buffer| > 9 {
      var size := Read3(r.buffer);
      Read3Prefix(r.buffer, more);
      if size <= MAX_FRAME_SIZE && |r.buffer| >= size + 9 {
        assert longer.buffer[..size + 9] == r.buffer[..size + 9];
        assert longer.buffer[size + 9..] == r.buffer[size + 9..] + more;
        match Parse(r.buffer[..size + 9])
        case Accepted(f) =>
          var (state, close) := h.receive(r.state, f);
          if !close {
            DrainSplit(h, Reader(r.buffer[size + 9..], r.preface, state, r.closed), more);
          }
        case _ =>
      }
    }
  }

  lemma Read3Prefix(s: seq<Octet>, more: seq<Octet>)
    requires |s| >= 3
    ensures Read3(s + more) == Read3(s)
  {
  }

  /** After the preface, any cut of the octets delivers the same frames, closes at the same frame and
      leaves the same octets as one single read. */
  lemma {:induction false} SegmentationIndependent<S>(h: Handler<S>, r: Reader<S>, segments: seq<seq<Octet>>)
    requires r.preface && !r.closed && segments != []
    ensures Run(h, r, segments) == Read(h, r, Concat(segments))
    decreases |segments|
  {
    hide Drain;
    var first, rest := segments[0], segments[1..];
    var d := Read(h, r, first);
    assert d == Drain(h, r.(buffer := r.buffer + first));
    DrainSplit(h, r.(buffer := r.buffer + first), Concat(rest));
    assert r.buffer + (first + Concat(rest)) == r.buffer + first + Concat(rest);
    if rest == [] {
      assert first + [] == first && d.buffer + [] == d.buffer;
      DrainStable(h, r.(buffer := r.buffer + first));
    } else if !d.closed {
      SegmentationIndependent(h, d, rest);
    }
  }

  /** A drained buffer has nothing left to deliver. */
  lemma {:induction false} DrainStable<S>(h: Handler<S>, r: Reader<S>)
    requires !r.closed
    ensures var d := Drain(h, r); !d.closed ==> Drain(h, d) == d
    decreases |r.buffer|
  {
    hide Parse, Read3;
    if |r.buffer| > 9 {
      var size := Read3(r.buffer);
      if size <= MAX_FRAME_SIZE && |r.buffer| >= size + 9 {
        match Parse(r.buffer[..size + 9])
        case Accepted(f) =>
          var (state, close) := h.receive(r.state, f);
          if !close {
            DrainStable(h, Reader(r.buffer[size + 9..], r.preface, state, r.closed));
          }
        case _ =>
      }
    }
  }

  /** The loop's guard asks for more than nine octets, so a complete frame is held back exactly when
      its payload is empty and nothing follows it yet. */
  lemma {:induction false} HeldBackExactly<S>(h: Handler<S>, r: Reader<S>)
    requires !r.closed && !Drain(h, r).closed
    ensures var b := Drain(h, r).buffer;
            (|b| >= 9 && |b| >= Read3(b) + 9) <==> (|b| == 9 && Read3(b) == 0)
    decreases |r.buffer|
  {
    hide Parse, Read3;
    if |r.buffer| > 9 {
      var size := Read3(r.buffer);
      if size <= MAX_FRAME_SIZE && |r.buffer| >= size + 9 {
        match Parse(r.buffer[..size + 9])
        case Accepted(f) =>
          var (state, close) := h.receive(r.state, f);
          if !close {
            HeldBackExactly(h, Reader(r.buffer[size + 9..], r.preface, state, r.closed));
          }
        case _ =>
      }
    }
  }

  // The preface

  /** "PRI" as a frame length. */
  lemma PrefaceIsOversized(b: seq<Octet>)
    requires |b| >= 3 && b[..3] == PREFACE[..3]
    ensures Read3(b) > MAX_FRAME_SIZE
  {
    assert b[0] == b[..3][0] && b[1] == b[..3][1] && b[2] == b[..3][2];
  }

  /** From the completed preface on, the rest of the reads amounts to one. */
  lemma {:induction false} AfterPreface<S>(h: Handler<S>, started: Reader<S>, before: S, rest: seq<seq<Octet>>)
    requires started.preface && !started.closed
    ensures Run(h, Drain(h, started), rest) == Drain(h, started.(buffer := started.buffer + Concat(rest)))
  {
    hide Drain;
    var d := Drain(h, started);
    DrainSplit(h, started, Concat(rest));
    if rest == [] {
      assert d.buffer + [] == d.buffer && started.buffer + [] == started.buffer;
    } else if !d.closed {
      SegmentationIndependent(h, d, rest);
    }
  }

  // The reader in place

  /** The fields of `struct sub_conn` and `struct http2_server_extra` that reading uses. */
  class FrameReader<!S> {
    const handler: Handler<S>
    const readBuffer: Buffer
    const frameBuffer: array<Octet>
    var hasReceivedPreface: bool
    var state: S

    ghost predicate Valid()
      reads this
    {
      frameBuffer.Length == MAX_FRAME_SIZE + 9
    }

    ghost function Model(closed: bool): Reader<S>
      reads this, readBuffer
    {
      Reader(readBuffer.octets, hasReceivedPreface, state, closed)
    }

    constructor (handler: Handler<S>, state: S)
      ensures Valid() && fresh(readBuffer) && fresh(frameBuffer) && this.handler == handler
      ensures Model(false) == Reader([], false, state, false)
    {
      this.handler, this.state, this.hasReceivedPreface := handler, state, false;
      this.readBuffer := new Buffer();
      this.frameBuffer := new Octet[MAX_FRAME_SIZE + 9](_ => 0);
    }

    /** `handle_http2_server_read`; 1 asks the caller to close the connection. */
    method HandleRead(segment: seq<Octet>) returns (status: int)
      requires Valid()
      modifies this, readBuffer, frameBuffer
      ensures Valid() && status in {0, 1}
      ensures Model(status == 1) == Read(handler, old(Model(false)), segment)
    {
      hide Parse;
      readBuffer.Push(segment);
      if !hasReceivedPreface {
        if |readBuffer.octets| >= 24 {
          var maybePreface := readBuffer.Pop(24);
          if maybePreface != PREFACE {
            return 1;
          }
          hasReceivedPreface := true;
          state := handler.start(state);
        }
      }
      while |readBuffer.octets| > 9
        invariant Drain(handler, Model(false)) == Read(handler, old(Model(false)), segment)
        decreases |readBuffer.octets|
      {
        var header := readBuffer.Peek(9);
        var frameSize := Read3(header);
        Read3Prefix(header, readBuffer.octets[9..]);
        assert header + readBuffer.octets[9..] == readBuffer.octets;
        if frameSize > MAX_FRAME_SIZE {
          return 1;
        }
        if |readBuffer.octets| < frameSize + 9 {
          break;
        }
        PopInto(frameSize + 9);
        var frame := ParseFrame(frameBuffer[..frameSize + 9]);
        if !frame.Accepted? {
          return 1;
        }
        var (next, close) := handler.receive(state, frame.frame);
        state := next;
        if close {
          return 1;
        }
      }
      return 0;
    }

    /** `buffer_pop` into the frame buffer, which is large enough for every admitted frame. */
    method PopInto(count: nat)
      requires count <= |readBuffer.octets| && count <= frameBuffer.Length
      modifies readBuffer, frameBuffer
      ensures frameBuffer[..count] == old(readBuffer.octets[..count])
      ensures readBuffer.octets == old(readBuffer.octets[count..])
    {
      var popped := readBuffer.Pop(count);
      for k := 0 to count
        invariant frameBuffer[..k] == popped[..k]
        invariant readBuffer.octets == old(readBuffer.octets[count..])
      {
        frameBuffer[k] := popped[k];
      }
    }
  }
}
