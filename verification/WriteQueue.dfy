/** The partial-write loop `trigger_write` on a plain socket. */
module WriteQueue {
  import opened BitStrings
  import opened ByteBuffer

  /** What a call of `write` may return: some octets written, EAGAIN, or another error. */
  datatype Outcome = Accepted(written: nat) | WouldBlock | Broken

  /** The calls of `write` that a trigger may make, one for each entry at most; none writes more than it is
      given. */
  ghost predicate Possible(entries: seq<seq<Octet>>, outcomes: seq<Outcome>) {
    |outcomes| >= |entries| &&
    forall i :: 0 <= i < |entries| && outcomes[i].Accepted? ==> outcomes[i].written <= |entries[i]|
  }

  /** The queue after a trigger: what went out, what is left, and the connection's two flags. */
  datatype Flushed = Flushed(taken: seq<Octet>, left: seq<seq<Octet>>, available: bool, broken: bool)

  function Flush(entries: seq<seq<Octet>>, outcomes: seq<Outcome>): Flushed
    requires |outcomes| >= |entries|
    decreases |entries|
  {
    if entries == [] then Flushed([], [], true, false)
    else
      match outcomes[0]
      case WouldBlock => Flushed([], entries, false, false)
      case Broken => Flushed([], entries, true, true)
      case Accepted(written) =>
        if written < |entries[0]| then
          Flushed(entries[0][..written], [entries[0][written..]] + entries[1..], true, false)
        else
          var r := Flush(entries[1..], outcomes[1..]);
          r.(taken := entries[0] + r.taken)
  }

  /** Nothing is lost, doubled or reordered: what went out, followed by what is left, is what was queued. */
  lemma {:induction false} FlushConserves(entries: seq<seq<Octet>>, outcomes: seq<Outcome>)
    requires |outcomes| >= |entries|
    ensures var r := Flush(entries, outcomes); r.taken + Concat(r.left) == Concat(entries)
    decreases |entries|
  {
    if entries != [] {
      match outcomes[0]
      case WouldBlock => assert [] + Concat(entries) == Concat(entries);
      case Broken => assert [] + Concat(entries) == Concat(entries);
      case Accepted(written) =>
        if written < |entries[0]| {
          var left := [entries[0][written..]] + entries[1..];
          assert left[1..] == entries[1..] && left[0] == entries[0][written..];
          assert entries[0] == entries[0][..written] + entries[0][written..];
          assert entries[0][..written] + (entries[0][written..] + Concat(entries[1..]))
              == entries[0] + Concat(entries[1..]);
        } else {
          FlushConserves(entries[1..], outcomes[1..]);
          var r := Flush(entries[1..], outcomes[1..]);
          assert entries[0] + r.taken + Concat(r.left) == entries[0] + (r.taken + Concat(r.left));
        }
    }
  }

  /** The queue is emptied exactly when every call takes its whole entry; and only EAGAIN makes the
      connection wait for the socket. */
  lemma {:induction false} FlushEmptiesExactly(entries: seq<seq<Octet>>, outcomes: seq<Outcome>)
    requires Possible(entries, outcomes)
    ensures var r := Flush(entries, outcomes);
            && (r.left == [] <==> forall i :: 0 <= i < |entries| ==> outcomes[i] == Accepted(|entries[i]|))
            && (!r.available ==> exists i :: 0 <= i < |entries| && outcomes[i] == WouldBlock)
            && (r.broken ==> exists i :: 0 <= i < |entries| && outcomes[i] == Broken)
    decreases |entries|
  {
    if entries != [] && outcomes[0].Accepted? && outcomes[0].written >= |entries[0]| {
      var rest, others := entries[1..], outcomes[1..];
      assert forall i :: 0 <= i < |rest| ==> rest[i] == entries[i + 1] && others[i] == outcomes[i + 1];
      FlushEmptiesExactly(rest, others);
      var r := Flush(rest, others);
      assert outcomes[0] == Accepted(|entries[0]|);
      if r.left == [] {
        forall i | 0 <= i < |entries| ensures outcomes[i] == Accepted(|entries[i]|) {
          if i > 0 {
            assert others[i - 1] == Accepted(|rest[i - 1]|);
          }
        }
      }
      if forall i :: 0 <= i < |entries| ==> outcomes[i] == Accepted(|entries[i]|) {
        forall i | 0 <= i < |rest| ensures others[i] == Accepted(|rest[i]|) {
          assert outcomes[i + 1] == Accepted(|entries[i + 1]|);
        }
      }
    } else if entries != [] {
      assert outcomes[0] != Accepted(|entries[0]|);
    }
  }

  /** The first call that does not take its whole entry ends the flush: what stays is the rest of its entry and
      all that come after it. */
  lemma {:induction false} FlushStopsThere(entries: seq<seq<Octet>>, outcomes: seq<Outcome>, k: nat)
    requires Possible(entries, outcomes) && k < |entries| && outcomes[k] != Accepted(|entries[k]|)
    requires forall i :: 0 <= i < k ==> outcomes[i] == Accepted(|entries[i]|)
    ensures var r := Flush(entries, outcomes);
            match outcomes[k]
            case WouldBlock => r.left == entries[k..] && !r.available && !r.broken
            case Broken => r.left == entries[k..] && r.available && r.broken
            case Accepted(written) =>
              r.left == [entries[k][written..]] + entries[k + 1..] && r.available && !r.broken
    decreases k
  {
    if k > 0 {
      var rest, others := entries[1..], outcomes[1..];
      assert forall i :: 0 <= i < |rest| ==> rest[i] == entries[i + 1] && others[i] == outcomes[i + 1];
      assert outcomes[0] == Accepted(|entries[0]|);
      FlushStopsThere(rest, others, k - 1);
      assert entries[k..] == rest[k - 1..] && entries[k + 1..] == rest[k..];
    }
  }

  // Runs

  datatype Action = Push(data: seq<Octet>) | Trigger(outcomes: seq<Outcome>) | Writable

  datatype Queue = Queue(buffers: seq<seq<Octet>>, size: int, available: bool, broken: bool)

  /** `trigger_write` */
  function Triggered(q: Queue, outcomes: seq<Outcome>): (Queue, seq<Octet>)
    requires |outcomes| >= |q.buffers|
  {
    if q.available && q.size > 0 then
      var r := Flush(q.buffers, outcomes);
      (Queue(r.left, q.size - |r.taken|, r.available, q.broken || r.broken), r.taken)
    else (q, [])
  }

  /** One action, and what it sends. */
  function Act(q: Queue, a: Action): (Queue, seq<Octet>)
    requires a.Trigger? ==> |a.outcomes| >= |q.buffers|
  {
    match a
    case Push(data) => (Queue(q.buffers + [data], q.size + |data|, q.available, q.broken), [])
    case Trigger(outcomes) => Triggered(q, outcomes)
    case Writable => (q.(available := true), [])
  }

  /** Every trigger of the run has an outcome for each of its calls. */
  ghost predicate Runs(q: Queue, actions: seq<Action>)
    decreases |actions|
  {
    actions == [] ||
    ((actions[0].Trigger? ==> |actions[0].outcomes| >= |q.buffers|) && Runs(Act(q, actions[0]).0, actions[1..]))
  }

  ghost function Sent(q: Queue, actions: seq<Action>): (seq<Octet>, Queue)
    requires Runs(q, actions)
    decreases |actions|
  {
    if actions == [] then ([], q)
    else
      var (next, sent) := Act(q, actions[0]);
      var (more, last) := Sent(next, actions[1..]);
      (sent + more, last)
  }

  function Pushed(actions: seq<Action>): seq<Octet> {
    if actions == [] then [] else (if actions[0].Push? then actions[0].data else []) + Pushed(actions[1..])
  }

  lemma {:induction false} ActConserves(q: Queue, a: Action)
    requires a.Trigger? ==> |a.outcomes| >= |q.buffers|
    ensures var (next, sent) := Act(q, a);
            && sent + Concat(next.buffers) == Concat(q.buffers) + (if a.Push? then a.data else [])
            && (q.size == |Concat(q.buffers)| ==> next.size == |Concat(next.buffers)|)
  {
    hide Flush, Concat;
    match a {
      case Push(data) => ConcatAppends(q.buffers, data);
      case Trigger(outcomes) => FlushConserves(q.buffers, outcomes);
      case Writable =>
    }
  }

  /** Over any run of pushes and triggers, with any short writes and errors, the socket gets an in-order
      prefix of what was pushed, and the size counts the rest. */
  lemma {:induction false} RunConserves(q: Queue, actions: seq<Action>)
    requires Runs(q, actions) && q.size == |Concat(q.buffers)|
    ensures var (sent, last) := Sent(q, actions);
            && sent + Concat(last.buffers) == Concat(q.buffers) + Pushed(actions)
            && last.size == |Concat(last.buffers)|
    decreases |actions|
  {
    hide Act, Concat;
    if actions == [] {
      assert Concat(q.buffers) + [] == [] + Concat(q.buffers);
    } else {
      var a := actions[0];
      var (next, sent) := Act(q, a);
      ActConserves(q, a);
      RunConserves(next, actions[1..]);
      var (more, last) := Sent(next, actions[1..]);
      var data := if a.Push? then a.data else [];
      Regroup(sent, more, Concat(last.buffers), Concat(next.buffers), Pushed(actions[1..]), Concat(q.buffers), data);
    }
  }

  /** An available socket that takes everything is sent everything, and an unavailable one nothing. */
  lemma {:induction false} TriggerSends(q: Queue, outcomes: seq<Outcome>)
    requires Possible(q.buffers, outcomes) && q.size == |Concat(q.buffers)|
    ensures q.available && (forall i :: 0 <= i < |q.buffers| ==> outcomes[i] == Accepted(|q.buffers[i]|)) ==>
              Triggered(q, outcomes).1 == Concat(q.buffers)
    ensures !q.available ==> Triggered(q, outcomes) == (q, [])
  {
    hide Flush;
    FlushEmptiesExactly(q.buffers, outcomes);
    FlushConserves(q.buffers, outcomes);
  }

  lemma Regroup(a: seq<Octet>, b: seq<Octet>, c: seq<Octet>, d: seq<Octet>, e: seq<Octet>, f: seq<Octet>, g: seq<Octet>)
    requires b + c == d + e && a + d == f + g
    ensures a + b + c == f + (g + e)
  {
    assert a + b + c == a + (b + c) == a + d + e == f + g + e == f + (g + e);
  }

  // In place

  class Connection {
    var buffers: seq<seq<Octet>>
    var size: int
    var writeAvailable: bool
    var safeClose: bool

    ghost function Model(): Queue
      reads this
    {
      Queue(buffers, size, writeAvailable, safeClose)
    }

    constructor ()
      ensures Model() == Queue([], 0, false, false)
    {
      buffers, size, writeAvailable, safeClose := [], 0, false, false;
    }

    /** `buffer_push` */
    method PushData(data: seq<Octet>)
      modifies this
      ensures Model() == Act(old(Model()), Push(data)).0
    {
      buffers := buffers + [data];
      size := size + |data|;
    }

    /** One call of `write` with the first entry; whether the loop goes on. */
    method WriteFirst(outcome: Outcome) returns (again: bool, ghost sent: seq<Octet>)
      requires buffers != [] && (outcome.Accepted? ==> outcome.written <= |buffers[0]|)
      modifies this
      ensures again <==> outcome == Accepted(|old(buffers)[0]|)
      ensures again ==>
                && Model() == old(Model()).(buffers := old(buffers)[1..], size := old(size) - |sent|)
                && sent == old(buffers)[0]
      ensures !again ==>
                var r := FlushStop(old(buffers), outcome);
                && sent == r.taken
                && Model() == Queue(r.left, old(size) - |sent|, old(writeAvailable) && r.available,
                                    old(safeClose) || r.broken)
    {
      var entry := buffers[0];
      again, sent := false, [];
      if outcome == WouldBlock {
        writeAvailable := false;
      } else if outcome == Broken {
        safeClose := true;
      } else if outcome.written < |entry| {
        buffers := [entry[outcome.written..]] + buffers[1..];
        size := size - outcome.written;
        sent := entry[..outcome.written];
      } else {
        size := size - outcome.written;
        buffers := buffers[1..];
        again, sent := true, entry;
      }
    }

    /** `trigger_write`, with the results of its calls of `write` in order. */
    method TriggerWrite(outcomes: seq<Outcome>) returns (ghost sent: seq<Octet>)
      requires Possible(buffers, outcomes)
      modifies this
      ensures (Model(), sent) == Triggered(old(Model()), outcomes)
    {
      hide Flush, FlushStop, Possible;
      sent := [];
      PossibleLength(buffers, outcomes);
      if writeAvailable && size > 0 {
        ghost var flushed := Flush(buffers, outcomes);
        var calls := 0;
        ghost var left := outcomes;
        while |buffers| > 0
          invariant Possible(buffers, left) && writeAvailable && safeClose == old(safeClose)
          invariant 0 <= calls <= |outcomes| && left == outcomes[calls..] && |left| >= |buffers|
          invariant size == old(size) - |sent|
          invariant flushed == After(sent, Flush(buffers, left))
          decreases |buffers|
        {
          assert left[0] == outcomes[calls] && left[1..] == outcomes[calls + 1..];
          FlushUnfold(buffers, left, sent);
          PossibleRest(buffers, left);
          var again, now := WriteFirst(outcomes[calls]);
          sent := sent + now;
          if !again {
            return;
          }
          calls := calls + 1;
          left := left[1..];
        }
        NothingToFlush(left, sent);
      }
    }
  }

  /** A flush that comes after other octets were sent. */
  ghost function After(sent: seq<Octet>, r: Flushed): Flushed {
    r.(taken := sent + r.taken)
  }

  /** The outcome of a call that ends the loop. */
  function FlushStop(entries: seq<seq<Octet>>, outcome: Outcome): Flushed
    requires entries != [] && (outcome.Accepted? ==> outcome.written <= |entries[0]|)
  {
    match outcome
    case WouldBlock => Flushed([], entries, false, false)
    case Broken => Flushed([], entries, true, true)
    case Accepted(written) => Flushed(entries[0][..written], [entries[0][written..]] + entries[1..], true, false)
  }

  lemma FlushUnfold(entries: seq<seq<Octet>>, outcomes: seq<Outcome>, sent: seq<Octet>)
    requires Possible(entries, outcomes) && entries != []
    ensures outcomes[0].Accepted? ==> outcomes[0].written <= |entries[0]|
    ensures After(sent, Flush(entries, outcomes))
         == if outcomes[0] == Accepted(|entries[0]|) then After(sent + entries[0], Flush(entries[1..], outcomes[1..]))
            else After(sent, FlushStop(entries, outcomes[0]))
  {
    if outcomes[0] == Accepted(|entries[0]|) {
      var r := Flush(entries[1..], outcomes[1..]);
      assert sent + (entries[0] + r.taken) == sent + entries[0] + r.taken;
    }
  }

  lemma NothingToFlush(outcomes: seq<Outcome>, sent: seq<Octet>)
    ensures After(sent, Flush([], outcomes)) == Flushed(sent, [], true, false)
  {
    assert sent + [] == sent;
  }

  lemma PossibleLength(entries: seq<seq<Octet>>, outcomes: seq<Outcome>)
    requires Possible(entries, outcomes)
    ensures |outcomes| >= |entries|
  {
  }

  lemma PossibleRest(entries: seq<seq<Octet>>, outcomes: seq<Outcome>)
    requires Possible(entries, outcomes) && entries != []
    ensures Possible(entries[1..], outcomes[1..]) && (outcomes[0].Accepted? ==> outcomes[0].written <= |entries[0]|)
  {
    assert forall i :: 0 <= i < |entries[1..]| ==>
        entries[1..][i] == entries[i + 1] && outcomes[1..][i] == outcomes[i + 1];
  }
}
