/**
 The opening of a connection: the frame loop runs before the preface is complete, so what the first 24
 octets of a stream come to depends on how they are cut into reads.
 */
module Http2Opening {
  import opened BitStrings
  import opened ByteBuffer
  import opened HpackStatic
  import opened Http2Frame
  import opened Http2Wire
  import opened Http2Reader

  /** Some read ends after at least `low` and less than 24 octets of the stream, `have` of which came
      before. */
  predicate EndsWithin(have: nat, low: nat, segments: seq<seq<Octet>>)
    decreases |segments|
  {
    segments != [] &&
    (var now := have + |segments[0]|; low <= now < 24 || (now < 24 && EndsWithin(now, low, segments[1..])))
  }

  /** What a stream comes to before its preface: it is waited for, it starts the connection, it closes the
      connection, or a frame is handled ahead of it. */
  datatype Opening = Waits | Starts | Refuses | Early(frame: Frame)

  /** The octets after which the first frame is handled: all of it, but more than nine. */
  function FirstFrameEnd(size: nat): nat {
    if size == 0 then 10 else size + 9
  }

  /** Decided by the stream's first three octets, read as the length of a frame, by where reads end inside
      its first 24 octets, and otherwise by the preface. */
  function OpeningOf(have: nat, stream: seq<Octet>, segments: seq<seq<Octet>>): Opening {
    if |stream| < 3 then Waits
    else
      var size := Read3(stream);
      if size > MAX_FRAME_SIZE && EndsWithin(have, 10, segments) then Refuses
      else if size + 9 <= |stream| && EndsWithin(have, FirstFrameEnd(size), segments) then
        match Parse(stream[..size + 9])
        case Accepted(f) => Early(f)
        case _ => Refuses
      else if |stream| < 24 then Waits
      else if stream[..24] == PREFACE then Starts
      else Refuses
  }

  /** Octets that the frame loop leaves where they are. */
  predicate Idle(b: seq<Octet>) {
    |b| <= 9 || (|b| < 24 && Read3(b) <= MAX_FRAME_SIZE && |b| < Read3(b) + 9)
  }

  /** The reader after the handler got a frame. */
  function Handled<S>(h: Handler<S>, r: Reader<S>, f: Frame, rest: seq<Octet>): Reader<S> {
    var (state, close) := h.receive(r.state, f);
    if close then Reader(rest, r.preface, state, true) else Drain(h, Reader(rest, r.preface, state, false))
  }

  ghost predicate Opens<S>(h: Handler<S>, r: Reader<S>, segments: seq<seq<Octet>>, o: Opening) {
    var stream, last := r.buffer + Concat(segments), Run(h, r, segments);
    match o
    case Waits => last == r.(buffer := stream)
    case Starts => last == Read(h, r, Concat(segments)) && last.preface
    case Refuses => last.closed && !last.preface && last.state == r.state
    case Early(f) => exists i :: HandlesFirst(h, r, segments, f, i)
  }

  /** The first `i` reads end inside the first 24 octets with a frame complete, it is the first thing the
      handler gets, and the other reads follow. */
  ghost predicate HandlesFirst<S>(h: Handler<S>, r: Reader<S>, segments: seq<seq<Octet>>, f: Frame, i: int) {
    && 0 < i <= |segments|
    && var read := r.buffer + Concat(segments[..i]);
       && 10 <= |read| < 24 && Read3(read) + 9 <= |read| && Parse(read[..Read3(read) + 9]) == Accepted(f)
       && Run(h, r, segments) == Run(h, Handled(h, r, f, read[Read3(read) + 9..]), segments[i..])
  }

  lemma Read3OfPrefix(a: seq<Octet>, b: seq<Octet>)
    requires |a| >= 3 && a <= b
    ensures Read3(a) == Read3(b)
  {
  }

  /** A read that ends before the preface is complete and leaves nothing to handle. */
  lemma {:induction false} IdleRead<S>(h: Handler<S>, r: Reader<S>, segment: seq<Octet>)
    requires !r.preface && !r.closed && Idle(r.buffer + segment) && |r.buffer + segment| < 24
    ensures Read(h, r, segment) == r.(buffer := r.buffer + segment)
  {
    hide Read3, Parse;
  }

  /** A read that ends inside the first 24 octets and leaves something to handle. */
  lemma {:induction false} BusyRead<S>(h: Handler<S>, r: Reader<S>, segment: seq<Octet>)
    requires !r.preface && !r.closed && !Idle(r.buffer + segment) && |r.buffer + segment| < 24
    ensures var b := r.buffer + segment;
            Read(h, r, segment)
            == if Read3(b) > MAX_FRAME_SIZE then r.(buffer := b, closed := true)
               else match Parse(b[..Read3(b) + 9])
                    case Accepted(f) => Handled(h, r, f, b[Read3(b) + 9..])
                    case _ => Reader(b[Read3(b) + 9..], false, r.state, true)
  {
    hide Read3, Parse;
  }

  lemma RunUnfold<S>(h: Handler<S>, r: Reader<S>, segments: seq<seq<Octet>>)
    requires !r.closed && segments != []
    ensures Run(h, r, segments) == Run(h, Read(h, r, segments[0]), segments[1..])
    ensures var d := Read(h, r, segments[0]);
            d.closed ==> Run(h, r, segments) == d.(buffer := d.buffer + Concat(segments[1..]))
  {
    hide Read;
  }

  lemma {:induction false} LateRead<S>(h: Handler<S>, r: Reader<S>, segments: seq<seq<Octet>>)
    requires !r.preface && !r.closed && segments != [] && |r.buffer| < 24 <= |r.buffer + segments[0]|
    ensures var stream := r.buffer + Concat(segments);
            |stream| >= 24 && Opens(h, r, segments, if stream[..24] == PREFACE then Starts else Refuses)
  {
    hide Drain, Run;
    var first, rest := segments[0], segments[1..];
    var stream, pushed := r.buffer + Concat(segments), r.buffer + first;
    assert stream == pushed + Concat(rest) && stream[..24] == pushed[..24];
    RunUnfold(h, r, segments);
    if pushed[..24] == PREFACE {
      assert stream[24..] == pushed[24..] + Concat(rest);
      var started := Reader(pushed[24..], true, h.start(r.state), false);
      assert Read(h, r, first) == Drain(h, started);
      AfterPreface(h, started, r.state, rest);
      assert Read(h, r, Concat(segments)) == Drain(h, started.(buffer := stream[24..]));
    }
  }

  /** For every stream and every cut into reads, the opening is as decided. */
  lemma {:induction false} OpeningDecides<S>(h: Handler<S>, r: Reader<S>, segments: seq<seq<Octet>>)
    requires !r.preface && !r.closed && Idle(r.buffer) && |r.buffer| < 24
    ensures Opens(h, r, segments, OpeningOf(|r.buffer|, r.buffer + Concat(segments), segments))
    decreases |segments|
  {
    hide Drain, Read, Read3, Parse, Opens;
    var stream := r.buffer + Concat(segments);
    if segments == [] {
      NothingRead(h, r);
    } else {
      var first, rest := segments[0], segments[1..];
      var b := r.buffer + first;
      assert stream == b + Concat(rest);
      if |b| >= 24 {
        LateRead(h, r, segments);
      } else if Idle(b) {
        IdleRead(h, r, first);
        var next := r.(buffer := b);
        OpeningDecides(h, next, rest);
        if |b| >= 3 { Read3OfPrefix(b, stream); }
        OpensLater(h, r, segments, OpeningOf(|b|, stream, rest));
      } else {
        Read3OfPrefix(b, stream);
        var end := Read3(b) + 9;
        if Read3(b) <= MAX_FRAME_SIZE {
          assert b[..end] == stream[..end];
        }
        assert EndsWithin(|r.buffer|, 10, segments);
        OpensNow(h, r, segments);
      }
    }
  }

  lemma NothingRead<S>(h: Handler<S>, r: Reader<S>)
    requires !r.preface && !r.closed
    ensures Opens(h, r, [], Waits) && r.buffer + Concat([]) == r.buffer
  {
  }

  lemma {:induction false} OpensLater<S>(h: Handler<S>, r: Reader<S>, segments: seq<seq<Octet>>, o: Opening)
    requires !r.preface && !r.closed && segments != []
    requires Read(h, r, segments[0]) == r.(buffer := r.buffer + segments[0])
    requires Opens(h, r.(buffer := r.buffer + segments[0]), segments[1..], o)
    ensures Opens(h, r, segments, o)
  {
    hide Drain, Read, Run, Read3, Parse;
    RunUnfold(h, r, segments);
    var first, rest := segments[0], segments[1..];
    var next := r.(buffer := r.buffer + first);
    ReadMore(h, r, first, Concat(rest));
    assert next.buffer + Concat(rest) == r.buffer + Concat(segments);
    if o.Early? {
      var i :| HandlesFirst(h, next, rest, o.frame, i);
      assert segments[..i + 1] == [first] + rest[..i];
      assert Concat(segments[..i + 1]) == first + Concat(rest[..i]) by { ConcatCons(first, rest[..i]); }
      assert next.buffer + Concat(rest[..i]) == r.buffer + Concat(segments[..i + 1]);
      assert segments[i + 1..] == rest[i..];
      assert HandlesFirst(h, r, segments, o.frame, i + 1);
    }
  }

  lemma ReadMore<S>(h: Handler<S>, r: Reader<S>, first: seq<Octet>, more: seq<Octet>)
    ensures Read(h, r.(buffer := r.buffer + first), more) == Read(h, r, first + more)
  {
    hide Drain;
    assert r.buffer + first + more == r.buffer + (first + more);
  }

  lemma ConcatCons(first: seq<Octet>, rest: seq<seq<Octet>>)
    ensures Concat([first] + rest) == first + Concat(rest)
  {
    assert ([first] + rest)[1..] == rest;
  }

  lemma {:induction false} OpensNow<S>(h: Handler<S>, r: Reader<S>, segments: seq<seq<Octet>>)
    requires !r.preface && !r.closed && segments != []
    requires !Idle(r.buffer + segments[0]) && |r.buffer + segments[0]| < 24
    ensures var b := r.buffer + segments[0];
            Opens(h, r, segments,
                  if Read3(b) > MAX_FRAME_SIZE then Refuses
                  else match Parse(b[..Read3(b) + 9]) case Accepted(f) => Early(f) case _ => Refuses)
  {
    hide Drain, Read, Run, Read3, Parse, Handled;
    RunUnfold(h, r, segments);
    BusyRead(h, r, segments[0]);
    var b := r.buffer + segments[0];
    ConcatCons(segments[0], []);
    assert segments[..1] == [segments[0]] + [] && segments[0] + Concat([]) == segments[0];
    if Read3(b) <= MAX_FRAME_SIZE {
      match Parse(b[..Read3(b) + 9])
      case Accepted(f) => assert HandlesFirst(h, r, segments, f, 1);
      case _ =>
    }
  }

  // What can be seen of it

  /** A handler that notices whether it has been started and whether it got a frame before that. */
  datatype Sight = Sight(started: bool, early: bool)

  function Witness(): Handler<Sight> {
    Handler((s: Sight) => Sight(true, s.early), (s: Sight, f) => (Sight(s.started, s.early || !s.started), false))
  }

  lemma {:induction false} DrainSeen(r: Reader<Sight>)
    ensures var d := Drain(Witness(), r).state;
            d.started == r.state.started && (r.state.early ==> d.early)
                && (r.state.started ==> d.early == r.state.early)
    decreases |r.buffer|
  {
    hide Parse, Read3;
    if |r.buffer| > 9 {
      var size := Read3(r.buffer);
      if size <= MAX_FRAME_SIZE && |r.buffer| >= size + 9 {
        match Parse(r.buffer[..size + 9])
        case Accepted(f) =>
          DrainSeen(Reader(r.buffer[size + 9..], r.preface, Witness().receive(r.state, f).0, r.closed));
        case _ =>
      }
    }
  }

  lemma {:induction false} RunSeen(r: Reader<Sight>, segments: seq<seq<Octet>>)
    requires r.state.early
    ensures Run(Witness(), r, segments).state.early
    decreases |segments|
  {
    hide Drain;
    if !r.closed && segments != [] {
      var pushed := r.(buffer := r.buffer + segments[0]);
      DrainSeen(pushed);
      if |pushed.buffer| >= 24 {
        DrainSeen(pushed.(buffer := pushed.buffer[24..], preface := true, state := r.state.(started := true)));
      }
      RunSeen(Read(Witness(), r, segments[0]), segments[1..]);
    }
  }

  /** For every stream and every cut, a frame is handled before the preface exactly when some read ends
      inside the first 24 octets after a frame that the parser accepts, and after more than nine octets. */
  lemma {:induction false} EarlyFramesExactly(segments: seq<seq<Octet>>)
    ensures var fresh' := Reader([], false, Sight(false, false), false);
            Run(Witness(), fresh', segments).state.early <==> OpeningOf(0, Concat(segments), segments).Early?
  {
    hide Drain, Run, OpeningOf, Handled;
    var r := Reader([], false, Sight(false, false), false);
    var o := OpeningOf(0, Concat(segments), segments);
    assert [] + Concat(segments) == Concat(segments);
    OpeningDecides(Witness(), r, segments);
    match o {
      case Starts =>
        DrainSeen(Reader(Concat(segments), false, r.state, false));
        if |Concat(segments)| >= 24 {
          DrainSeen(Reader(Concat(segments)[24..], true, Sight(true, false), false));
        }
      case Early(f) =>
        var i :| HandlesFirst(Witness(), r, segments, f, i);
        var read := r.buffer + Concat(segments[..i]);
        HandledSeen(r, f, read[Read3(read) + 9..]);
        RunSeen(Handled(Witness(), r, f, read[Read3(read) + 9..]), segments[i..]);
      case _ =>
    }
  }

  lemma {:induction false} HandledSeen(r: Reader<Sight>, f: Frame, rest: seq<Octet>)
    requires !r.state.started
    ensures Handled(Witness(), r, f, rest).state.early
  {
    hide Drain;
    DrainSeen(Reader(rest, r.preface, Witness().receive(r.state, f).0, false));
  }

  // Streams that open with the preface

  /** Some read ends after 10 to 23 octets of the stream. */
  predicate CutInsidePreface(have: nat, segments: seq<seq<Octet>>) {
    EndsWithin(have, 10, segments)
  }

  /** A stream that opens with the preface is served, and then as by one single read, exactly when no
      read ends inside its octets 10 to 23; a read that does closes the connection, because the frame
      loop takes "PRI" for the length of a frame. */
  lemma {:induction false} PrefaceSegmentation<S>(h: Handler<S>, r: Reader<S>, segments: seq<seq<Octet>>)
    requires !r.preface && !r.closed && |r.buffer| <= 9
    requires PREFACE <= r.buffer + Concat(segments)
    ensures OpeningOf(|r.buffer|, r.buffer + Concat(segments), segments)
         == if CutInsidePreface(|r.buffer|, segments) then Refuses else Starts
    ensures if CutInsidePreface(|r.buffer|, segments)
            then !Run(h, r, segments).preface && Run(h, r, segments).closed
            else Run(h, r, segments) == Read(h, r, Concat(segments)) && Run(h, r, segments).preface
  {
    hide Drain, Run, Read, Parse, Read3;
    var stream := r.buffer + Concat(segments);
    assert stream[..3] == PREFACE[..3];
    PrefaceIsOversized(stream);
    TooLongForAFrame(|r.buffer|, Read3(stream), segments);
    OpeningDecides(h, r, segments);
  }

  /** Only the text of section 3.5 of RFC 7540 starts a connection. */
  lemma {:induction false} StartsWithThePreface(have: nat, stream: seq<Octet>, segments: seq<seq<Octet>>)
    requires OpeningOf(have, stream, segments).Starts?
    ensures |stream| >= 24 && stream[..24] == Ascii("PRI * HTTP/2.0\r\n\r\nSM\r\n\r\n")
  {
    hide Read3, Parse;
    assert PREFACE == Ascii("PRI * HTTP/2.0\r\n\r\nSM\r\n\r\n");
  }

  /** The frame that the loop takes from its buffer, by its first three octets: more than 65536 octets of payload
      close the connection, an incomplete frame waits, and an accepted one is handled. */
  lemma {:induction false} FirstFrame<S>(h: Handler<S>, r: Reader<S>)
    requires !r.closed && |r.buffer| > 9
    ensures var size := Number(r.buffer[..3]);
            && (size > 65536 ==> Drain(h, r) == r.(closed := true))
            && (size <= 65536 && |r.buffer| < 9 + size ==> Drain(h, r) == r)
            && (size <= 65536 && |r.buffer| >= 9 + size && Parse(r.buffer[..9 + size]).Accepted? ==>
                  Drain(h, r) == Handled(h, r, Parse(r.buffer[..9 + size]).frame, r.buffer[9 + size..]))
  {
    hide Number, Read3, Parse;
    NumbersRead(r.buffer, 0);
  }

  lemma {:induction false} TooLongForAFrame(have: nat, size: nat, segments: seq<seq<Octet>>)
    requires size >= 15
    ensures !EndsWithin(have, FirstFrameEnd(size), segments)
    decreases |segments|
  {
    if segments != [] {
      TooLongForAFrame(have + |segments[0]|, size, segments[1..]);
    }
  }

  /** The preface in two reads of twelve octets closes the connection. */
  lemma {:induction false} SplitPrefaceCloses<S>(h: Handler<S>, s: S)
    ensures Run(h, Reader([], false, s, false), [PREFACE[..12], PREFACE[12..]]).closed
  {
    hide Run, Read;
    var segments := [PREFACE[..12], PREFACE[12..]];
    TwoSegments(PREFACE[..12], PREFACE[12..]);
    assert PREFACE[..12] + PREFACE[12..] == PREFACE && [] + PREFACE == PREFACE;
    assert CutInsidePreface(0, segments);
    PrefaceSegmentation(h, Reader([], false, s, false), segments);
  }

  lemma TwoSegments(a: seq<Octet>, b: seq<Octet>)
    ensures Concat([a, b]) == a + b
  {
    assert [a, b][1..] == [b] && [b][1..] == [];
    assert Concat([b]) == b + [] == b;
  }

  /** The preface is not waited for: a short frame that arrives in the first read is handled. */
  lemma {:induction false} FrameBeforePreface<S>(h: Handler<S>, s: S, f: Frame)
    requires Canonical(f) && !f.payload.Unknown? && 0 < |Body(f, 0)| < 15
    ensures var r := Read(h, Reader([], false, s, false), Serialize(f, 0));
            !r.preface && r.state == h.receive(s, f).0 && r.closed == h.receive(s, f).1
  {
    hide Parse, Read3, Body, Canonical;
    var w := Serialize(f, 0);
    FrameRoundTrip(f, 0);
    LengthField(f, 0);
    assert |w| == 9 + |Body(f, 0)|;
    assert [] + w == w && w[..|w|] == w;
    var (state, close) := h.receive(s, f);
    assert Read(h, Reader([], false, s, false), w) == Drain(h, Reader(w, false, s, false));
  }
}
