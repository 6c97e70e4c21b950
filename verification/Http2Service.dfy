/** A connection from octets to requests: the frame reader with the streams behind it. */
module Http2Service {
  import opened BitStrings
  import opened ByteBuffer
  import opened HpackTable
  import opened HpackCodec
  import opened Http2Frame
  import opened Http2Reader
  import opened Http2Opening
  import opened Http2Streams

  /** The connection while it is live, the number of frames so far, and everything that happened. */
  datatype Service = Service(connection: Option<Connection>, frames: nat, acts: seq<Act>)

  /** What lies outside: before each frame, the streamed responses that have ended, and what becomes of a
      request that the frame completes. */
  type World = nat -> (seq<(U32, nat)>, Answer)

  function Endings(ended: seq<(U32, nat)>): seq<Event> {
    if ended == [] then [] else [Finished(ended[0].0, ended[0].1)] + Endings(ended[1..])
  }

  /** One frame; whether the connection closes. */
  ghost function Serve(maxPost: nat, world: World, s: Service, f: Frame): (Service, bool) {
    if s.connection.None? || !Ready(s.connection.value.decoder) then (s, true)
    else
      var (ended, answer) := world(s.frames);
      var (acts, last) := Trace(s.connection.value, maxPost, Endings(ended) + [Incoming(f, answer)]);
      (Service(last, s.frames + 1, s.acts + acts), last.None?)
  }

  ghost function Serving(maxPost: nat, world: World): Handler<Service> {
    Handler(s => s, (s, f) => Serve(maxPost, world, s, f))
  }

  ghost predicate ServiceOk(maxPost: nat, s: Service) {
    && LogOk(s.acts, maxPost)
    && (s.connection.Some? ==> Inv(s.connection.value, maxPost, s.acts) && Ready(s.connection.value.decoder))
  }

  lemma {:induction false} ServeKeeps(maxPost: nat, world: World, s: Service, f: Frame)
    requires ServiceOk(maxPost, s)
    ensures ServiceOk(maxPost, Serve(maxPost, world, s, f).0)
  {
    hide Inv, LogOk, Ready, Trace, Endings;
    if s.connection.Some? {
      var (ended, answer) := world(s.frames);
      TraceKeeps(s.connection.value, maxPost, s.acts, Endings(ended) + [Incoming(f, answer)]);
    }
  }

  lemma {:induction false} DrainKeeps(maxPost: nat, world: World, r: Reader<Service>)
    requires ServiceOk(maxPost, r.state)
    ensures ServiceOk(maxPost, Drain(Serving(maxPost, world), r).state)
    decreases |r.buffer|
  {
    hide Parse, Read3, ServiceOk, Serve;
    if |r.buffer| > 9 {
      var size := Read3(r.buffer);
      if size <= MAX_FRAME_SIZE && |r.buffer| >= size + 9 {
        match Parse(r.buffer[..size + 9])
        case Accepted(f) =>
          ServeKeeps(maxPost, world, r.state, f);
          var (state, close) := Serve(maxPost, world, r.state, f);
          if !close {
            DrainKeeps(maxPost, world, Reader(r.buffer[size + 9..], r.preface, state, r.closed));
          }
        case _ =>
      }
    }
  }

  lemma {:induction false} RunKeeps(maxPost: nat, world: World, r: Reader<Service>, segments: seq<seq<Octet>>)
    requires ServiceOk(maxPost, r.state)
    ensures ServiceOk(maxPost, Run(Serving(maxPost, world), r, segments).state)
    decreases |segments|
  {
    hide Drain, ServiceOk, Serve;
    if !r.closed && segments != [] {
      var pushed := r.(buffer := r.buffer + segments[0]);
      DrainKeeps(maxPost, world, pushed);
      if !r.preface && |pushed.buffer| >= 24 {
        DrainKeeps(maxPost, world, pushed.(buffer := pushed.buffer[24..], preface := true));
      }
      RunKeeps(maxPost, world, Read(Serving(maxPost, world), r, segments[0]), segments[1..]);
    }
  }

  function Accepting(): (r: Reader<Service>)
  {
    Reader([], false, Service(Some(NewConnection()), 0, []), false)
  }

  /** For every stream of octets, however it is cut, and whatever the requests come to: streams are
      disciplined.  When the opening starts the connection, the same requests are dispatched with the same
      bodies as if the stream had arrived in one piece; when it waits or refuses, nothing happens; and
      otherwise a frame is handled ahead of the preface. */
  lemma {:induction false} RequestsDoNotDependOnReads(maxPost: nat, world: World, segments: seq<seq<Octet>>)
    ensures LogOk(Run(Serving(maxPost, world), Accepting(), segments).state.acts, maxPost)
    ensures var h, stream := Serving(maxPost, world), Concat(segments);
            match OpeningOf(0, stream, segments)
            case Starts => Run(h, Accepting(), segments) == Read(h, Accepting(), stream)
            case Early(f) => exists i :: HandlesFirst(h, Accepting(), segments, f, i)
            case _ => Run(h, Accepting(), segments).state == Accepting().state
  {
    hide Run, Read, Serving, LogOk, Inv, Ready, OpeningOf, HandlesFirst;
    NewIsSound(maxPost);
    NewIsServiceable(maxPost);
    RunKeeps(maxPost, world, Accepting(), segments);
    assert [] + Concat(segments) == Concat(segments);
    OpeningDecides(Serving(maxPost, world), Accepting(), segments);
  }

  lemma NewIsServiceable(maxPost: nat)
    requires Inv(NewConnection(), maxPost, [])
    ensures ServiceOk(maxPost, Accepting().state)
  {
    hide Ready;
  }
}
