/**
 Streams that share an identifier: the end of a streamed response takes whatever stands under its
 identifier out of the map.  When is that another stream?
 */
module Http2Reuse {
  import opened BitStrings
  import opened HpackCodec
  import opened Http2Frame
  import opened Http2Streams

  // One step, seen from one identifier

  ghost predicate OpensIn(acts: seq<Act>, id: U32) {
    exists life: nat :: Opened(life, id) in acts
  }

  predicate Resets(e: Event, id: U32) {
    e.Incoming? && e.frame.payload.RstStream? && e.frame.stream == id
  }

  /** A complete response, a reset or the end of a streamed response takes the identifier out of the map. */
  ghost predicate Clears(e: Event, acts: seq<Act>, id: U32) {
    || Resets(e, id)
    || (e.Finished? && e.id == id)
    || (e.Incoming? && e.answer == Sent && exists life: nat :: DispatchedIn(life, id, acts))
  }

  /** A response of this life starts to be streamed. */
  ghost predicate Streams(e: Event, acts: seq<Act>, id: U32, life: nat) {
    e.Incoming? && e.answer == Streaming && DispatchedIn(life, id, acts)
  }

  ghost predicate Held(c: Connection, id: U32, life: nat) {
    id in c.streams && c.streams[id].life == life && c.streams[id].state == HalfClosedRemote
  }

  ghost predicate StepFacts(c: Connection, d: Connection, e: Event, acts: seq<Act>, id: U32) {
    && c.lives <= d.lives
    && (Clears(e, acts, id) ==> id !in d.streams)
    && (id in c.streams && !Clears(e, acts, id) ==> id in d.streams)
    && (id in d.streams ==>
          if OpensIn(acts, id) then d.streams[id].life >= c.lives
          else id in c.streams && d.streams[id].life == c.streams[id].life)
    && (OpensIn(acts, id) ==> (id in c.streams ==> id == 0) && (Clears(e, acts, id) || id in d.streams))
    && (forall life: nat :: Streams(e, acts, id, life) ==> Held(d, id, life) && life < d.lives)
    && (forall life: nat :: id != 0 && Held(c, id, life) && !Resets(e, id) && !(e.Finished? && e.id == id) ==>
          Held(d, id, life))
  }

  lemma {:induction false} StepOn(c: Connection, maxPost: nat, log: seq<Act>, e: Event, id: U32)
    requires Inv(c, maxPost, log) && Ready(c.decoder) && After(c, maxPost, e).Live?
    ensures StepFacts(c, After(c, maxPost, e).connection, e, After(c, maxPost, e).acts, id)
  {
    hide Ready, DecodeFromOctet, ApplySettings, LogOk, StreamOk, Mentioned, StepFacts, ReceiveData, ReceiveHeaders,
      ReceiveContinuation;
    if id in c.streams {
      OpenHasNotEnded(log, maxPost, c.lives, id, c.streams[id]);
    }
    var r := After(c, maxPost, e);
    if e.Incoming? {
      match e.frame.payload {
        case Settings(entries) =>
          SettingsKeep(c, entries);
          QuietStep(c, r.connection, e, id);
        case Data(data) => DataStep(c, maxPost, e.frame, data, e.answer, id);
        case Headers(_, _, _, fragment) =>
          OnlyNewOrZero(c, maxPost, log, e.frame, fragment, e.answer);
          HeadersStep(c, e.frame, fragment, e.answer, id);
        case RstStream(_) => RemovalStep(c, e, id);
        case Continuation(_) => ContinuationStep(c, e.frame, e.answer, id);
        case Priority(_, _, _) => QuietStep(c, r.connection, e, id);
        case PushPromise(_, _) => QuietStep(c, r.connection, e, id);
        case WindowUpdate(_) => QuietStep(c, r.connection, e, id);
        case _ =>
      }
    } else {
      RemovalStep(c, e, id);
    }
  }

  lemma QuietStep(c: Connection, d: Connection, e: Event, id: U32)
    requires e.Incoming? && !e.frame.payload.RstStream? && d.streams == c.streams && d.lives == c.lives
    requires id in c.streams ==> c.streams[id].life < c.lives
    ensures StepFacts(c, d, e, [], id)
  {
  }

  lemma RemovalStep(c: Connection, e: Event, id: U32)
    requires e.Finished? || (e.Incoming? && e.frame.payload.RstStream?)
    ensures var gone := if e.Finished? then e.id else e.frame.stream;
            StepFacts(c, c.(streams := c.streams - {gone}), e, [], id)
  {
  }

  lemma ContinuationStep(c: Connection, f: Frame, answer: Answer, id: U32)
    requires f.payload.Continuation? && ReceiveContinuation(c, f).Live?
    ensures StepFacts(c, ReceiveContinuation(c, f).connection, Incoming(f, answer), [], id)
    ensures ReceiveContinuation(c, f).acts == []
  {
  }

  lemma {:induction false} DataStep(c: Connection, maxPost: nat, f: Frame, data: seq<Octet>, answer: Answer, id: U32)
    requires f.payload.Data? && ReceiveData(c, maxPost, f, data, answer).Live?
    requires id in c.streams ==> c.streams[id].life < c.lives
    ensures var r := ReceiveData(c, maxPost, f, data, answer);
            StepFacts(c, r.connection, Incoming(f, answer), r.acts, id)
  {
    var s := c.streams[f.stream];
    var body := s.body + data;
    var r := ReceiveData(c, maxPost, f, data, answer);
    if EndStreamFlag(f.flags) {
      assert r.acts == [Took(s.life, f.stream, data)] + [Dispatched(s.life, f.stream, s.headers, body)];
      assert r.acts[1] == Dispatched(s.life, f.stream, s.headers, body);
      assert DispatchedIn(s.life, f.stream, r.acts);
    }
  }

  lemma OnlyNewOrZero(c: Connection, maxPost: nat, log: seq<Act>, f: Frame, fragment: seq<Octet>, answer: Answer)
    requires Inv(c, maxPost, log) && Ready(c.decoder) && ReceiveHeaders(c, f, fragment, answer).Live?
    ensures f.stream in c.streams ==> f.stream == 0
  {
    hide Ready, LogOk, Mentioned, TakeFragment;
    if f.stream in c.streams {
      assert StreamOk(log, maxPost, c.lives, f.stream, c.streams[f.stream]);
    }
  }

  lemma {:induction false} HeadersStep(c: Connection, f: Frame, fragment: seq<Octet>, answer: Answer, id: U32)
    requires f.payload.Headers? && Ready(c.decoder) && ReceiveHeaders(c, f, fragment, answer).Live?
    requires (f.stream in c.streams ==> f.stream == 0) && (id in c.streams ==> c.streams[id].life < c.lives)
    ensures var r := ReceiveHeaders(c, f, fragment, answer);
            StepFacts(c, r.connection, Incoming(f, answer), r.acts, id)
  {
    hide Ready, DecodeFromOctet, Dispatch, StepFacts;
    var r := ReceiveHeaders(c, f, fragment, answer);
    var o := DecodeFromOctet(c.decoder, fragment, 0, []);
    assert [] + o.fields == o.fields;
    var s := Stream(c.lives, Open, o.fields, EndHeadersFlag(f.flags), []);
    var opening := [Opened(c.lives, f.stream)] + [Decoded(c.lives, f.stream, o.fields)];
    var d := c.(streams := c.streams[f.stream := s], lives := c.lives + 1, decoder := o.context);
    assert c.streams[f.stream := Stream(c.lives, Open, [], false, [])][f.stream := s] == d.streams;
    assert r == if EndStreamFlag(f.flags) then Dispatch(d, f.stream, s, opening, answer) else Live(d, opening);
    NewStreamStep(c, d, s, f, opening, answer, id);
  }

  lemma {:induction false} NewStreamStep(c: Connection, d: Connection, s: Stream, f: Frame, opening: seq<Act>,
                                         answer: Answer, id: U32)
    requires f.payload.Headers? && s.state == Open && s.life == c.lives && s.body == []
    requires (f.stream in c.streams ==> f.stream == 0) && (id in c.streams ==> c.streams[id].life < c.lives)
    requires d.streams == c.streams[f.stream := s] && d.lives == c.lives + 1
    requires opening == [Opened(c.lives, f.stream)] + [Decoded(c.lives, f.stream, s.headers)]
    ensures var r := if EndStreamFlag(f.flags) then Dispatch(d, f.stream, s, opening, answer) else Live(d, opening);
            r.Live? ==> StepFacts(c, r.connection, Incoming(f, answer), r.acts, id)
  {
    hide StepFacts;
    assert opening[0] == Opened(c.lives, f.stream);
    if EndStreamFlag(f.flags) {
      var told := opening + [Dispatched(c.lives, f.stream, s.headers, [])];
      assert told[0] == opening[0] && told[2] == Dispatched(c.lives, f.stream, s.headers, []);
      OpenedAndDispatched(c, d, s, f, told, answer, id);
    } else {
      OpenedOnly(c, d, s, f, opening, answer, id);
    }
  }

  lemma {:induction false} OpenedOnly(c: Connection, d: Connection, s: Stream, f: Frame, acts: seq<Act>,
                                      answer: Answer, id: U32)
    requires f.payload.Headers? && s.life == c.lives && s.state == Open
    requires (f.stream in c.streams ==> f.stream == 0) && (id in c.streams ==> c.streams[id].life < c.lives)
    requires d.streams == c.streams[f.stream := s] && d.lives == c.lives + 1
    requires Opened(c.lives, f.stream) in acts && forall a :: a in acts ==> a.id == f.stream && !a.Dispatched?
    ensures StepFacts(c, d, Incoming(f, answer), acts, id)
  {
    assert OpensIn(acts, f.stream);
  }

  lemma {:induction false} OpenedAndDispatched(c: Connection, d: Connection, s: Stream, f: Frame, acts: seq<Act>,
                                               answer: Answer, id: U32)
    requires f.payload.Headers? && s.life == c.lives
    requires (f.stream in c.streams ==> f.stream == 0) && (id in c.streams ==> c.streams[id].life < c.lives)
    requires d.streams == c.streams[f.stream := s] && d.lives == c.lives + 1
    requires Opened(c.lives, f.stream) in acts && Dispatched(c.lives, f.stream, s.headers, []) in acts
    requires forall a :: a in acts ==> a.id == f.stream && a.life == c.lives
    ensures answer == Sent ==> StepFacts(c, d.(streams := d.streams - {f.stream}), Incoming(f, answer), acts, id)
    ensures answer == Streaming ==>
              StepFacts(c, d.(streams := d.streams[f.stream := s.(state := HalfClosedRemote, body := [])]),
                  Incoming(f, answer), acts, id)
  {
    assert DispatchedIn(c.lives, f.stream, acts) && OpensIn(acts, f.stream);
  }

  /** One end takes no other life's stream out exactly when its identifier is free or its own. */
  lemma FinishTakesExactly(c: Connection, maxPost: nat, id: U32, life: nat)
    requires Ready(c.decoder)
    ensures var d := After(c, maxPost, Finished(id, life)).connection;
            (forall k :: k in c.streams && c.streams[k].life != life ==> k in d.streams && d.streams[k] == c.streams[k])
            <==> (id !in c.streams || c.streams[id].life == life)
  {
    hide Ready;
  }

  // Whole runs

  /** The connection before each event and after the last. */
  ghost predicate IsRun(maxPost: nat, events: seq<Event>, run: seq<Connection>) {
    && |run| == |events| + 1 && run[0] == NewConnection()
    && forall j :: 0 <= j < |events| ==> Follows(maxPost, run[j], events[j], run[j + 1])
  }

  ghost predicate Follows(maxPost: nat, c: Connection, e: Event, d: Connection) {
    Ready(c.decoder) && After(c, maxPost, e).Live? && d == After(c, maxPost, e).connection
  }

  ghost function ActsAt(maxPost: nat, events: seq<Event>, run: seq<Connection>, j: nat): seq<Act>
    requires IsRun(maxPost, events, run) && j < |events|
  {
    assert Follows(maxPost, run[j], events[j], run[j + 1]);
    After(run[j], maxPost, events[j]).acts
  }

  lemma {:induction false} RunKeepsInv(maxPost: nat, events: seq<Event>, run: seq<Connection>, j: nat)
    returns (log: seq<Act>)
    requires IsRun(maxPost, events, run) && j <= |events|
    ensures Inv(run[j], maxPost, log)
    decreases j
  {
    hide Inv, Ready, After;
    if j == 0 {
      NewIsSound(maxPost);
      log := [];
    } else {
      var before := RunKeepsInv(maxPost, events, run, j - 1);
      assert Follows(maxPost, run[j - 1], events[j - 1], run[j - 1 + 1]);
      AfterKeeps(run[j - 1], maxPost, before, events[j - 1]);
      log := before + After(run[j - 1], maxPost, events[j - 1]).acts;
    }
  }

  lemma {:induction false} StepAt(maxPost: nat, events: seq<Event>, run: seq<Connection>, j: nat, id: U32)
    requires IsRun(maxPost, events, run) && j < |events|
    ensures StepFacts(run[j], run[j + 1], events[j], ActsAt(maxPost, events, run, j), id)
  {
    hide Inv, Ready, After, StepFacts;
    var log := RunKeepsInv(maxPost, events, run, j);
    assert Follows(maxPost, run[j], events[j], run[j + 1]);
    StepOn(run[j], maxPost, log, events[j], id);
  }

  /** Each end belongs to a response that was started, and comes once. */
  ghost predicate EndsOnce(maxPost: nat, events: seq<Event>, run: seq<Connection>)
    requires IsRun(maxPost, events, run)
  {
    && (forall j :: 0 <= j < |events| && events[j].Finished? ==> Started(maxPost, events, run, j))
    && (forall j, k :: 0 <= j < k < |events| && events[j].Finished? && events[k].Finished? ==>
          events[j].life != events[k].life)
  }

  ghost predicate Started(maxPost: nat, events: seq<Event>, run: seq<Connection>, j: nat)
    requires IsRun(maxPost, events, run) && j < |events| && events[j].Finished?
  {
    exists i :: 0 <= i < j && StreamsAt(maxPost, events, run, i, events[j].id, events[j].life)
  }

  ghost predicate StreamsAt(maxPost: nat, events: seq<Event>, run: seq<Connection>, i: nat, id: U32, life: nat)
    requires IsRun(maxPost, events, run) && i < |events|
  {
    Streams(events[i], ActsAt(maxPost, events, run, i), id, life)
  }

  ghost predicate OpensAt(maxPost: nat, events: seq<Event>, run: seq<Connection>, l: nat, id: U32)
    requires IsRun(maxPost, events, run) && l < |events|
  {
    OpensIn(ActsAt(maxPost, events, run, l), id)
  }

  ghost predicate ClearsAt(maxPost: nat, events: seq<Event>, run: seq<Connection>, m: nat, id: U32)
    requires IsRun(maxPost, events, run) && m < |events|
  {
    Clears(events[m], ActsAt(maxPost, events, run, m), id)
  }

  /** The end of a response takes the stream of another life out of the map. */
  ghost predicate Takes(events: seq<Event>, run: seq<Connection>, j: nat)
    requires |run| == |events| + 1 && j < |events|
  {
    events[j].Finished? && events[j].id in run[j].streams && run[j].streams[events[j].id].life != events[j].life
  }

  /** Between the start of a response at `i` and its end at `j`, its identifier was reset and, at `l`, opened
      again for a stream that is not gone by then.  Stream 0 is opened again without a reset. */
  ghost predicate ReopenedBetween(maxPost: nat, events: seq<Event>, run: seq<Connection>, i: nat, l: nat, j: nat)
    requires IsRun(maxPost, events, run) && i < l < j < |events| && events[j].Finished?
  {
    var id := events[j].id;
    && StreamsAt(maxPost, events, run, i, id, events[j].life)
    && OpensAt(maxPost, events, run, l, id)
    && (id == 0 || exists k :: i < k < l && Resets(events[k], id))
    && (forall m :: l <= m < j ==> !ClearsAt(maxPost, events, run, m, id))
  }

  ghost predicate Reopened(maxPost: nat, events: seq<Event>, run: seq<Connection>, j: nat)
    requires IsRun(maxPost, events, run) && j < |events|
  {
    events[j].Finished? && exists i: nat, l: nat :: i < l < j && ReopenedBetween(maxPost, events, run, i, l, j)
  }

  lemma RunLength(maxPost: nat, events: seq<Event>, run: seq<Connection>)
    requires IsRun(maxPost, events, run)
    ensures |run| == |events| + 1
  {
  }

  lemma {:induction false} LivesGrow(maxPost: nat, events: seq<Event>, run: seq<Connection>, a: nat, b: nat)
    requires IsRun(maxPost, events, run) && a <= b <= |events|
    ensures run[a].lives <= run[b].lives
    decreases b
  {
    hide IsRun, ActsAt, Clears, OpensIn, Streams, Started;
    RunLength(maxPost, events, run);
    if a < b {
      LivesGrow(maxPost, events, run, a, b - 1);
      StepAt(maxPost, events, run, b - 1, 0);
    }
  }

  /** What was opened at `l` or replaced it later is there as long as nothing clears it. */
  lemma {:induction false} StaysOccupied(maxPost: nat, events: seq<Event>, run: seq<Connection>, l: nat, m: nat,
                                         id: U32)
    requires IsRun(maxPost, events, run) && l < m <= |events| && OpensAt(maxPost, events, run, l, id)
    requires forall k :: l <= k < m ==> !ClearsAt(maxPost, events, run, k, id)
    ensures id in run[m].streams && run[m].streams[id].life >= run[l].lives
    decreases m
  {
    hide IsRun, ActsAt, Clears, OpensIn, Streams, Started;
    RunLength(maxPost, events, run);
    StepAt(maxPost, events, run, m - 1, id);
    if l < m - 1 {
      StaysOccupied(maxPost, events, run, l, m - 1, id);
      LivesGrow(maxPost, events, run, l, m - 1);
    }
    assert !ClearsAt(maxPost, events, run, m - 1, id);
  }

  lemma {:induction false} ReopenedIsTaken(maxPost: nat, events: seq<Event>, run: seq<Connection>, j: nat)
    requires IsRun(maxPost, events, run) && j < |events| && Reopened(maxPost, events, run, j)
    ensures Takes(events, run, j)
  {
    hide IsRun, ActsAt, Clears, OpensIn, Streams, Started;
    RunLength(maxPost, events, run);
    var i: nat, l: nat :| i < l < j && ReopenedBetween(maxPost, events, run, i, l, j);
    StaysOccupied(maxPost, events, run, l, j, events[j].id);
    StepAt(maxPost, events, run, i, events[j].id);
    LivesGrow(maxPost, events, run, i + 1, l);
  }

  /** A stream of another life under the identifier was opened after `i`, and nothing has cleared it. */
  lemma {:induction false} OccupantWasOpened(maxPost: nat, events: seq<Event>, run: seq<Connection>, i: nat, m: nat,
                                             id: U32, life: nat)
    returns (l: nat)
    requires IsRun(maxPost, events, run) && i < m <= |events| && StreamsAt(maxPost, events, run, i, id, life)
    requires id in run[m].streams && run[m].streams[id].life != life
    ensures i < l < m && OpensAt(maxPost, events, run, l, id)
    ensures forall k :: l <= k < m ==> !ClearsAt(maxPost, events, run, k, id)
    decreases m
  {
    hide IsRun, ActsAt, Clears, OpensIn, Streams, Started;
    RunLength(maxPost, events, run);
    StepAt(maxPost, events, run, m - 1, id);
    if m - 1 == i {
      assert false;
    } else if OpensAt(maxPost, events, run, m - 1, id) {
      l := m - 1;
    } else {
      l := OccupantWasOpened(maxPost, events, run, i, m - 1, id, life);
    }
  }

  /** Until it is reset or an end comes for its identifier, the stream of a started response is held. */
  lemma {:induction false} HeldUntilReset(maxPost: nat, events: seq<Event>, run: seq<Connection>, i: nat, m: nat,
                                          id: U32, life: nat)
    requires IsRun(maxPost, events, run) && i < m <= |events| && StreamsAt(maxPost, events, run, i, id, life) && id != 0
    requires forall k :: i < k < m ==> !Resets(events[k], id) && !(events[k].Finished? && events[k].id == id)
    ensures Held(run[m], id, life)
    decreases m
  {
    hide IsRun, ActsAt, Clears, OpensIn, Streams, Started;
    RunLength(maxPost, events, run);
    StepAt(maxPost, events, run, m - 1, id);
    if m - 1 > i {
      HeldUntilReset(maxPost, events, run, i, m - 1, id, life);
    }
  }

  lemma {:induction false} FirstTakenIsReopened(maxPost: nat, events: seq<Event>, run: seq<Connection>, j: nat)
    requires IsRun(maxPost, events, run) && EndsOnce(maxPost, events, run)
    requires j < |events| && Takes(events, run, j) && forall k :: 0 <= k < j ==> !Takes(events, run, k)
    ensures Reopened(maxPost, events, run, j)
  {
    hide IsRun, ActsAt, Clears, OpensIn, Streams;
    RunLength(maxPost, events, run);
    var id, life := events[j].id, events[j].life;
    assert Started(maxPost, events, run, j);
    var i :| 0 <= i < j && StreamsAt(maxPost, events, run, i, id, life);
    var l := OccupantWasOpened(maxPost, events, run, i, j, id, life);
    if id != 0 && forall k :: i < k < l ==> !Resets(events[k], id) {
      NoEndBefore(maxPost, events, run, i, l, j);
      HeldUntilReset(maxPost, events, run, i, l, id, life);
      StepAt(maxPost, events, run, l, id);
      assert false;
    }
    assert ReopenedBetween(maxPost, events, run, i, l, j);
  }

  /** Without a reset and before the first stream is taken, no end comes for the identifier at all. */
  lemma {:induction false} NoEndBefore(maxPost: nat, events: seq<Event>, run: seq<Connection>, i: nat, m: nat, j: nat)
    requires IsRun(maxPost, events, run) && EndsOnce(maxPost, events, run) && i < m <= j < |events|
        && events[j].Finished?
    requires StreamsAt(maxPost, events, run, i, events[j].id, events[j].life) && events[j].id != 0
    requires forall k :: 0 <= k < j ==> !Takes(events, run, k)
    requires forall k :: i < k < m ==> !Resets(events[k], events[j].id)
    ensures forall k :: i < k < m ==> !(events[k].Finished? && events[k].id == events[j].id)
    decreases m
  {
    hide IsRun, StreamsAt, Started, ActsAt;
    RunLength(maxPost, events, run);
    if m - 1 > i {
      NoEndBefore(maxPost, events, run, i, m - 1, j);
      HeldUntilReset(maxPost, events, run, i, m - 1, events[j].id, events[j].life);
      assert !Takes(events, run, m - 1);
    }
  }

  /** Over every run in which each end belongs to a started response and comes once: some end takes the
      stream of another life out of the map exactly when some identifier is reset and opened again, with the
      new stream still there, between the start of a streamed response and its end. */
  lemma {:induction false} LateEndsExactly(maxPost: nat, events: seq<Event>, run: seq<Connection>)
    requires IsRun(maxPost, events, run) && EndsOnce(maxPost, events, run)
    ensures (exists j :: 0 <= j < |events| && Takes(events, run, j))
       <==> (exists j :: 0 <= j < |events| && Reopened(maxPost, events, run, j))
  {
    hide IsRun, EndsOnce, Takes, Reopened;
    RunLength(maxPost, events, run);
    if j :| 0 <= j < |events| && Takes(events, run, j) {
      var first := FirstTaken(events, run, j);
      FirstTakenIsReopened(maxPost, events, run, first);
    }
    if j :| 0 <= j < |events| && Reopened(maxPost, events, run, j) {
      ReopenedIsTaken(maxPost, events, run, j);
    }
  }

  lemma {:induction false} FirstTaken(events: seq<Event>, run: seq<Connection>, j: nat) returns (first: nat)
    requires |run| == |events| + 1 && j < |events| && Takes(events, run, j)
    ensures first <= j && Takes(events, run, first) && forall k :: 0 <= k < first ==> !Takes(events, run, k)
    decreases j
  {
    hide Takes;
    if k :| 0 <= k < j && Takes(events, run, k) {
      first := FirstTaken(events, run, k);
    } else {
      first := j;
    }
  }

  /** Every sequence of events that leaves the connection live has a run. */
  lemma {:induction false} LiveTraceHasRun(maxPost: nat, c: Connection, events: seq<Event>)
    returns (run: seq<Connection>)
    requires Ready(c.decoder) && Trace(c, maxPost, events).1.Some?
    ensures |run| == |events| + 1 && run[0] == c && run[|events|] == Trace(c, maxPost, events).1.value
    ensures forall j :: 0 <= j < |events| ==> Follows(maxPost, run[j], events[j], run[j + 1])
    decreases |events|
  {
    hide Ready, After;
    if events == [] {
      run := [c];
    } else {
      AfterKeepsReady(c, maxPost, events[0]);
      var d := After(c, maxPost, events[0]).connection;
      var rest := LiveTraceHasRun(maxPost, d, events[1..]);
      run := [c] + rest;
      forall j | 0 <= j < |events| ensures Follows(maxPost, run[j], events[j], run[j + 1]) {
        if j > 0 {
          assert Follows(maxPost, rest[j - 1], events[1..][j - 1], rest[j - 1 + 1]);
        }
      }
    }
  }
}
