/** What holds over whole runs of the thread-safe client, whatever the interleaving of handlers. */
module ClientRuns {
  import opened Escape
  import opened Framing
  import opened Helper
  import opened Segments
  import opened ClientModel
  import opened ClientInvariants
  import opened ClientSteps

  lemma {:induction false} RunKeeps(s: State, events: seq<Event>)
    requires Inv(s) && Run(s, events)
    ensures Inv(After(s, events))
    decreases |events|
  {
    if events != [] {
      StepKeeps(s, events[0]);
      RunKeeps(Step(s, events[0]), events[1..]);
    }
  }

  // ----- what a run has been given -----

  function Submitted(events: seq<Event>): seq<string> {
    if events == [] then []
    else (if events[0].EvWrite? then [events[0].message] else []) + Submitted(events[1..])
  }

  function Arrived(events: seq<Event>): string {
    if events == [] then []
    else (if events[0].EvArrive? then events[0].bytes else []) + Arrived(events[1..])
  }

  /** The bytes received so far, read or not, and the messages submitted, are those of `s`. */
  ghost predicate SameInput(s: State, t: State) {
    && t.log.submitted == s.log.submitted
    && t.log.consumed + t.inputBuffer == s.log.consumed + s.inputBuffer
  }

  lemma NotifyRest(s: State)
    ensures SameInput(s, Notify(s))
  {
    ExecuteAllRest(s, s.pendingWrites);
  }

  lemma StopInput(s: State, order: seq<string>)
    requires IsOrder(order, s.pendingResponses) && s.io.stopCalls > 0
    ensures SameInput(s, Stop(s, order))
  {
    NotifyRest(ClearPending(s.(stopped := true, connected := false,
               io := s.io.(socketOpen := false, stopCalls := s.io.stopCalls - 1)), order));
  }

  lemma ConnectInput(s: State)
    ensures SameInput(s, ConnectOk(s)) && SameInput(s, ConnectFailed(s))
  {
    NotifyRest(s.(connected := true, io := s.io.(connecting := false)));
    NotifyRest(s.(io := s.io.(connecting := false, connectFailed := true)));
  }

  lemma ReadInput(s: State, order: seq<string>)
    requires IsOrder(order, s.pendingResponses) && FrameReady(s)
    ensures SameInput(s, Read(s, order))
  {
    ReadIsTakeAndAnswer(s, order);
    var n := IndexOf(s.inputBuffer, STOP) + 1;
    Regroup(s.log.consumed, s.inputBuffer[..n], s.inputBuffer[n..]);
    assert s.inputBuffer[..n] + s.inputBuffer[n..] == s.inputBuffer;
  }

  lemma {:induction false} StepHistory(s: State, e: Event)
    requires Enabled(s, e)
    ensures var t := Step(s, e);
            && t.log.submitted == s.log.submitted + (if e.EvWrite? then [e.message] else [])
            && t.log.consumed + t.inputBuffer
               == s.log.consumed + s.inputBuffer + (if e.EvArrive? then e.bytes else [])
  {
    match e
    case EvWrite(_) =>
    case EvArrive(bytes) =>
      assert s.log.consumed + (s.inputBuffer + bytes) == s.log.consumed + s.inputBuffer + bytes;
    case EvConnectOk => ConnectInput(s);
    case EvConnectFailed => ConnectInput(s);
    case EvStop(order) => StopInput(s, order);
    case EvRead(order) => ReadInput(s, order);
    case EvStart =>
    case EvWriteOk =>
    case EvWriteFailed =>
    case EvHeartbeat(_) =>
    case EvHeartbeatTimer =>
    case EvReadFailed =>
    case EvCallStop =>
  }

  lemma {:induction false} RunHistory(s: State, events: seq<Event>)
    requires Run(s, events)
    ensures var t := After(s, events);
            && t.log.submitted == s.log.submitted + Submitted(events)
            && t.log.consumed + t.inputBuffer == s.log.consumed + s.inputBuffer + Arrived(events)
    decreases |events|
  {
    if events != [] {
      var e, rest := events[0], events[1..];
      StepHistory(s, e);
      RunHistory(Step(s, e), rest);
      Regroup(s.log.submitted, if e.EvWrite? then [e.message] else [], Submitted(rest));
      Regroup(s.log.consumed + s.inputBuffer, if e.EvArrive? then e.bytes else [], Arrived(rest));
    }
  }

  lemma RunReaches(events: seq<Event>)
    requires Run(INITIAL, events)
    ensures Inv(After(INITIAL, events))
  {
    InitialInv();
    RunKeeps(INITIAL, events);
  }

  lemma RunInputs(events: seq<Event>)
    requires Run(INITIAL, events)
    ensures var t := After(INITIAL, events);
            t.log.submitted == Submitted(events) && t.log.consumed + t.inputBuffer == Arrived(events)
  {
    RunHistory(INITIAL, events);
    assert [] + Submitted(events) == Submitted(events);
    assert ([] + []) + Arrived(events) == Arrived(events);
  }

  // ----- promises -----

  /** In every run each promise made by `write` is in exactly one place: queued, awaiting a reply, fulfilled,
      or overwritten; and no handler ever completes a promise twice. */
  lemma PromisesConserved(events: seq<Event>)
    requires Run(INITIAL, events)
    ensures var t := After(INITIAL, events);
            && Partition(Promises(t.pendingWrites), t.pendingResponses, t.log.ledger.values.Keys, t.log.overwritten,
                         |Submitted(events)|)
            && !t.log.ledger.caught
  {
    RunReaches(events);
    RunInputs(events);
  }

  lemma {:induction false} SetAllStable(l: Ledger, ps: seq<Promise>, value: string)
    ensures forall p :: p in l.values ==> p in SetAll(l, ps, value).values && SetAll(l, ps, value).values[p] == l.values[p]
    decreases |ps|
  {
    if ps != [] {
      SetAllStable(SetValue(l, ps[0], value), ps[1..], value);
    }
  }

  ghost predicate ValuesKept(s: State, t: State) {
    forall p :: p in s.log.ledger.values ==> p in t.log.ledger.values && t.log.ledger.values[p] == s.log.ledger.values[p]
  }

  lemma NotifyValues(s: State)
    ensures ValuesKept(s, Notify(s))
  {
    ExecuteAllRest(s, s.pendingWrites);
    SetAllStable(s.log.ledger, Promises(s.pendingWrites), "");
  }

  lemma StopValues(s: State, order: seq<string>)
    requires IsOrder(order, s.pendingResponses) && s.io.stopCalls > 0
    ensures ValuesKept(s, Stop(s, order))
  {
    var l := SetAll(s.log.ledger, Lookup(order, s.pendingResponses), "");
    SetAllStable(s.log.ledger, Lookup(order, s.pendingResponses), "");
    SetAllStable(l, Promises(s.pendingWrites), "");
    assert Promises([]) == [];
  }

  ghost predicate SameCommands(s: State, t: State) {
    && t.stopped == s.stopped
    && t.io.stopCalls == s.io.stopCalls
    && t.io.connecting == s.io.connecting
    && t.pendingWrites == s.pendingWrites
    && t.log.executed == s.log.executed
    && t.log.submitted == s.log.submitted
    && t.log.overwritten == s.log.overwritten
  }

  lemma ResponseLeaves(s: State, response: string, order: seq<string>)
    requires IsOrder(order, s.pendingResponses)
    ensures var t := HandleResponse(s, response, order);
            ValuesKept(s, t) && SameCommands(s, t)
  {
    FirstMatchIsKey(response, order);
    match FirstMatch(response, order)
    case None =>
    case Some(k) =>
      SetValueKeeps(s.log.ledger, s.pendingResponses[k], Matched(response, k).value);
  }

  lemma SetValueKeeps(l: Ledger, p: Promise, value: string)
    ensures forall q :: q in l.values ==>
              q in SetValue(l, p, value).values && SetValue(l, p, value).values[q] == l.values[q]
  {
  }

  lemma DeliverLeaves(s: State, line: string, order: seq<string>)
    requires IsOrder(order, s.pendingResponses)
    ensures var t := Deliver(s, line, order);
            ValuesKept(s, t) && SameCommands(s, t)
  {
    ResponseLeaves(s.(log := s.log.(lines := s.log.lines + [line])), line, order);
  }

  lemma ConsumeLeaves(s: State, n: nat, parsed: Parsed, order: seq<string>)
    requires IsOrder(order, s.pendingResponses) && n <= |s.inputBuffer|
    ensures var t := Consume(s, n, parsed, order);
            ValuesKept(s, t) && SameCommands(s, t)
  {
    if parsed.Line? && parsed.text != [] {
      DeliverLeaves(s.(inputBuffer := s.inputBuffer[n..],
                       log := s.log.(consumed := s.log.consumed + s.inputBuffer[..n])), parsed.text, order);
    }
  }

  lemma ReadLeaves(s: State, order: seq<string>)
    requires IsOrder(order, s.pendingResponses) && FrameReady(s)
    ensures var t := Read(s, order);
            ValuesKept(s, t) && SameCommands(s, t)
  {
    var n := IndexOf(s.inputBuffer, STOP) + 1;
    ConsumeLeaves(s, n, ParseSegment(NextSegment(s)), order);
  }

  lemma {:induction false} StepValues(s: State, e: Event)
    requires Enabled(s, e)
    ensures ValuesKept(s, Step(s, e))
  {
    match e
    case EvConnectOk => NotifyValues(s.(connected := true, io := s.io.(connecting := false)));
    case EvConnectFailed => NotifyValues(s.(io := s.io.(connecting := false, connectFailed := true)));
    case EvStop(order) =>
      StopValues(s, order);
    case EvRead(order) =>
      ReadLeaves(s, order);
    case EvStart =>
    case EvWrite(_) =>
    case EvWriteOk =>
    case EvWriteFailed =>
    case EvHeartbeat(_) =>
    case EvHeartbeatTimer =>
    case EvArrive(_) =>
    case EvReadFailed =>
    case EvCallStop =>
  }

  /** A fulfilled promise keeps its value for the rest of the run. */
  lemma {:induction false} ValuesFinal(s: State, events: seq<Event>)
    requires Run(s, events)
    ensures ValuesKept(s, After(s, events))
    decreases |events|
  {
    if events != [] {
      StepValues(s, events[0]);
      ValuesFinal(Step(s, events[0]), events[1..]);
    }
  }

  lemma {:induction false} ExecuteAllOverwrites(s: State, requests: seq<Request>)
    ensures s.log.overwritten <= ExecuteAll(s, requests).log.overwritten
    decreases |requests|
  {
    if requests != [] {
      ExecuteAllOverwrites(Execute(s, requests[0]), requests[1..]);
    }
  }

  lemma {:induction false} StepOverwrites(s: State, e: Event)
    requires Enabled(s, e)
    ensures s.log.overwritten <= Step(s, e).log.overwritten
  {
    match e
    case EvConnectOk => ExecuteAllOverwrites(s.(connected := true, io := s.io.(connecting := false)), s.pendingWrites);
    case EvConnectFailed =>
      ExecuteAllOverwrites(s.(io := s.io.(connecting := false, connectFailed := true)), s.pendingWrites);
    case EvRead(order) => ReadLeaves(s, order);
    case _ =>
  }

  lemma {:induction false} RunOverwrites(s: State, events: seq<Event>)
    requires Run(s, events)
    ensures s.log.overwritten <= After(s, events).log.overwritten
    decreases |events|
  {
    if events != [] {
      StepOverwrites(s, events[0]);
      RunOverwrites(Step(s, events[0]), events[1..]);
    }
  }

  /** A promise that has lost its key has lost it for good: it never gets a value. */
  lemma OverwrittenForEver(s: State, events: seq<Event>)
    requires Inv(s) && Run(s, events)
    ensures var t := After(s, events);
            && s.log.overwritten <= t.log.overwritten
            && forall p :: p in s.log.overwritten ==> p !in t.log.ledger.values
  {
    RunOverwrites(s, events);
    RunKeeps(s, events);
  }

  /** Carrying out a stop leaves no earlier `write` without an answer: its promise is fulfilled, or was
      overwritten before; those that had no answer yet get the empty one. */
  lemma StopAnswersAll(s: State, order: seq<string>)
    requires Inv(s) && Enabled(s, EvStop(order))
    ensures var t := Step(s, EvStop(order));
            forall p: Promise :: p < |s.log.submitted| && p !in s.log.overwritten ==>
              && p in t.log.ledger.values
              && (p !in s.log.ledger.values ==> t.log.ledger.values[p] == "")
  {
    StopLedger(s, order);
    StopValues(s, order);
    var t := Step(s, EvStop(order));
    forall p: Promise | p < |s.log.submitted| && p !in s.log.overwritten
      ensures p in t.log.ledger.values && (p !in s.log.ledger.values ==> t.log.ledger.values[p] == "")
    {
      assert p in Promises(s.pendingWrites) || p in s.pendingResponses.Values || p in s.log.ledger.values;
    }
  }

  /** The promises after a stop: those awaiting a reply or the connection have been given the empty value. */
  lemma StopLedger(s: State, order: seq<string>)
    requires Conserved(s) && IsOrder(order, s.pendingResponses) && s.io.stopCalls > 0
    ensures var l := Stop(s, order).log.ledger;
            forall p :: p in s.pendingResponses.Values || p in Promises(s.pendingWrites) ==>
              p in l.values && l.values[p] == ""
  {
    var ps, qs := Lookup(order, s.pendingResponses), Promises(s.pendingWrites);
    LookupCovers(order, s.pendingResponses);
    assert forall i :: 0 <= i < |ps| ==> ps[i] in ps;
    assert forall i :: 0 <= i < |qs| ==> qs[i] in qs;
    SetAllSets(s.log.ledger, ps, "");
    SetAllSets(SetAll(s.log.ledger, ps, ""), qs, "");
    assert Promises([]) == [];
  }

  /** When connecting fails, the requests that waited for the connection get the empty answer. */
  lemma ConnectFailureAnswers(s: State)
    requires Inv(s) && Enabled(s, EvConnectFailed)
    ensures var t := Step(s, EvConnectFailed);
            && t.pendingWrites == []
            && forall p :: p in Promises(s.pendingWrites) ==>
                 p in t.log.ledger.values && t.log.ledger.values[p] == ""
  {
    var qs := Promises(s.pendingWrites);
    assert forall i :: 0 <= i < |qs| ==> qs[i] in qs;
    SetAllSets(s.log.ledger, qs, "");
  }

  lemma {:induction false} StaysStopped(s: State, e: Event)
    requires Inv(s) && Enabled(s, e) && s.stopped
    ensures Step(s, e).stopped && Step(s, e).log.executed == s.log.executed
  {
    match e
    case EvRead(order) => ReadLeaves(s, order);
    case _ =>
  }

  /** After a stop nothing is ever sent or awaited again: no command is executed, no key is registered, the
      write queue stays empty. */
  lemma {:induction false} StoppedForEver(s: State, events: seq<Event>)
    requires Inv(s) && s.stopped && Run(s, events)
    ensures var t := After(s, events);
            t.stopped && t.pendingResponses == map[] && t.writeMsgs == [] && t.log.executed == s.log.executed
    decreases |events|
  {
    if events != [] {
      StepKeeps(s, events[0]);
      StaysStopped(s, events[0]);
      StoppedForEver(Step(s, events[0]), events[1..]);
    }
  }

  /** Stopped, with no stop handler and no connect outstanding. */
  ghost predicate Abandoned(s: State) {
    s.io.started && s.stopped && s.io.stopCalls == 0 && !s.io.connecting
  }

  lemma {:induction false} StaysAbandoned(s: State, e: Event)
    requires Inv(s) && Enabled(s, e) && Abandoned(s)
    ensures var t := Step(s, e);
            && Abandoned(t)
            && t.pendingWrites == s.pendingWrites + (if e.EvWrite? then [Request(e.message, |s.log.submitted|)] else [])
            && t.log.submitted == s.log.submitted + (if e.EvWrite? then [e.message] else [])
  {
    match e
    case EvRead(order) => ReadLeaves(s, order);
    case _ =>
  }

  /** The promises made from number `from` on are all still queued. */
  ghost predicate Waiting(t: State, from: nat) {
    forall p: Promise :: from <= p < |t.log.submitted| ==> p in Promises(t.pendingWrites)
  }

  lemma {:induction false} LateWritesWait(s: State, events: seq<Event>, from: nat)
    requires Inv(s) && Abandoned(s) && Waiting(s, from) && Run(s, events)
    ensures Abandoned(After(s, events)) && Waiting(After(s, events), from) && Inv(After(s, events))
    decreases |events|
  {
    if events != [] {
      var t := Step(s, events[0]);
      StaysAbandoned(s, events[0]);
      StepKeeps(s, events[0]);
      var qs, n := Promises(s.pendingWrites), |s.log.submitted|;
      assert Promises(t.pendingWrites) == qs + if events[0].EvWrite? then [n] else [];
      LateWritesWait(t, events[1..], from);
    }
  }

  /** A `write` made after the last stop handler has run is queued for a connection that never comes: it is
      never answered. */
  lemma LateWritesUnanswered(s: State, events: seq<Event>)
    requires Inv(s) && Abandoned(s) && Run(s, events)
    ensures var t := After(s, events);
            forall p: Promise :: |s.log.submitted| <= p < |t.log.submitted| ==>
              p in Promises(t.pendingWrites) && p !in t.log.ledger.values
  {
    LateWritesWait(s, events, |s.log.submitted|);
  }

  /** A stop or a failed connect still to come answers every write that waits. */
  lemma WaitersAnswered(s: State) returns (e: Event)
    requires Inv(s) && s.stopped && !s.io.dead && !s.io.undefined && (s.io.connecting || s.io.stopCalls > 0)
    ensures Enabled(s, e)
    ensures forall p :: p in Promises(s.pendingWrites) ==> p in Step(s, e).log.ledger.values
  {
    if s.io.connecting {
      e := EvConnectFailed;
      ConnectFailureAnswers(s);
    } else {
      e := EvStop([]);
      assert IsOrder([], s.pendingResponses);
      StopLedger(s, []);
    }
  }

  ghost predicate Answerable(s: State, p: Promise) {
    exists events :: Run(s, events) && p in After(s, events).log.ledger.values
  }

  lemma RunOne(s: State, e: Event)
    requires Enabled(s, e)
    ensures Run(s, [e]) && After(s, [e]) == Step(s, e)
  {
    assert [e][1..] == [];
  }

  lemma RunFirst(s: State, e: Event, events: seq<Event>)
    requires Enabled(s, e) && Run(Step(s, e), events)
    ensures Run(s, [e] + events) && After(s, [e] + events) == After(Step(s, e), events)
  {
    assert ([e] + events)[1..] == events;
  }

  /** A `write` on a stopped client can still be answered exactly when a stop handler or a connect is
      outstanding. */
  lemma LateWriteAnsweredExactly(s: State, m: string)
    requires Inv(s) && s.stopped && s.io.started && !s.io.dead && !s.io.undefined
    ensures Answerable(Step(s, EvWrite(m)), |s.log.submitted|) <==> !Abandoned(s)
  {
    var p, t := |s.log.submitted|, Step(s, EvWrite(m));
    StepKeeps(s, EvWrite(m));
    if Abandoned(s) {
      forall events | Run(t, events)
        ensures p !in After(t, events).log.ledger.values
      {
        RunFirst(s, EvWrite(m), events);
        RunHistory(t, events);
        LateWritesUnanswered(s, [EvWrite(m)] + events);
      }
    } else {
      assert Promises(t.pendingWrites)[|s.pendingWrites|] == p;
      var e := WaitersAnswered(t);
      RunOne(t, e);
    }
  }

  // ----- what each handler leaves behind -----

  /** The heartbeat goes on: a write is followed by the timer, the timer of a client that is not stopped by the
      next write, and a failed write by a call of stop. */
  lemma HeartbeatGoesOn(s: State)
    requires s.io.beats + s.io.rests <= 1
    ensures s.io.beats > 0 ==> HeartbeatSent(s, false) == s.(io := s.io.(beats := 0, rests := 1))
    ensures s.io.beats > 0 ==> HeartbeatSent(s, true) == CallStop(s.(io := s.io.(beats := 0)))
    ensures s.io.rests > 0 ==>
              HeartbeatTimer(s) == s.(io := s.io.(rests := 0, beats := if s.stopped then 0 else 1))
  {
  }

  /** A call of stop is posted exactly when the client is not stopped, and changes nothing else. */
  lemma StopPosted(s: State)
    ensures CallStop(s) == if s.stopped then s else s.(io := s.io.(stopCalls := s.io.stopCalls + 1))
  {
  }

  /** A failed command write or read ends its operation and calls for a stop; nothing else changes. */
  lemma FailuresCallStop(s: State)
    requires |s.io.inFlight| <= 1
    ensures s.io.inFlight != [] ==> WriteFailed(s) == CallStop(s.(io := s.io.(inFlight := [], writeFailed := true)))
    ensures ReadFailed(s) == CallStop(s.(io := s.io.(reading := false)))
  {
    assert s.io.inFlight != [] ==> s.io.inFlight[1..] == [];
  }

  /** A connect that succeeds leaves the client connected, reading, with one heartbeat under way and nobody
      waiting, and answers no one; one that fails changes only its own flags and the promises of the waiters. */
  lemma ConnectOutcome(s: State)
    requires Phases(s)
    ensures s.io.connecting && s.io.socketOpen ==>
              var t := ConnectOk(s);
              && t.connected && !t.stopped && t.pendingWrites == []
              && t.log.ledger == s.log.ledger && t.inputBuffer == s.inputBuffer
              && t.io == s.io.(connecting := false, reading := true, beats := 1, inFlight := t.io.inFlight)
    ensures s.io.connecting ==>
              var t := ConnectFailed(s);
              t == s.(pendingWrites := [], io := s.io.(connecting := false, connectFailed := true),
                      log := s.log.(ledger := t.log.ledger))
  {
    ExecuteAllRest(s.(connected := true, io := s.io.(connecting := false)), s.pendingWrites);
    assert s.io.connecting ==> s.io.beats + s.io.rests == 0 && !s.connected;
    assert s.io.socketOpen ==> !s.stopped;
  }

  /** A write without a connection only waits. */
  lemma WriteWaits(s: State, m: string)
    requires !s.connected
    ensures Write(s, m) == s.(pendingWrites := s.pendingWrites + [Request(m, |s.log.submitted|)],
                              log := s.log.(submitted := s.log.submitted + [m]))
  {
  }

  // ----- the wire -----

  /** The frames of the first n submitted messages, numbered in the order of submission. */
  function SubmissionFrames(messages: seq<string>, n: nat): seq<string>
    requires n <= |messages|
  {
    seq(n, i requires 0 <= i < n => Number(messages[i], IdAt(i)).frame)
  }

  /** First in, first out, from `write` to the wire: the frames completed on the socket and those still
      queued are those of the submitted messages in order of submission, numbered from FIRST_ID on;
      requests made before the connection came up are included, and once connected none is left out. */
  lemma WireOrder(events: seq<Event>)
    requires Run(INITIAL, events)
    ensures var t := After(INITIAL, events);
            var n := |t.log.executed|;
            && n <= |Submitted(events)|
            && t.log.sent <= SubmissionFrames(Submitted(events), n)
            && (!t.stopped ==> t.log.sent + t.writeMsgs == SubmissionFrames(Submitted(events), n))
            && (t.connected ==> n == |Submitted(events)|)
  {
    RunReaches(events);
    RunInputs(events);
    var t := After(INITIAL, events);
    FramesAsSubmitted(t);
  }

  lemma FramesAsSubmitted(t: State)
    requires InOrder(t)
    ensures CommandFrames(t.log.executed) == SubmissionFrames(t.log.submitted, |t.log.executed|)
  {
  }

  /** One write at a time: never more than one command write is in flight, and until a stop the frame handed
      over to it is the head of the queue, so the handler that completes it takes off what has been written.
      An idle queue that still holds frames means that a write failed and a stop is on its way. With the
      frame in flight, what has been written is a beginning of the submitted frames even after a stop. */
  lemma OneWriteAtATime(events: seq<Event>)
    requires Run(INITIAL, events)
    ensures var t := After(INITIAL, events);
            var n := |t.log.executed|;
            && |t.io.inFlight| <= 1
            && (t.io.inFlight == [] && t.writeMsgs != [] ==> t.io.writeFailed && t.io.stopCalls > 0)
            && (t.io.inFlight != [] && !t.stopped ==> t.writeMsgs != [] && t.io.inFlight[0] == t.writeMsgs[0])
            && n <= |Submitted(events)|
            && t.log.sent + t.io.inFlight <= SubmissionFrames(Submitted(events), n)
  {
    RunReaches(events);
    RunInputs(events);
    FramesAsSubmitted(After(INITIAL, events));
  }

  /** A write that completes although its client has been stopped: the handler pops a queue that the stop has
      emptied. It happens then, and only then. */
  lemma PopsEmptyExactly(events: seq<Event>)
    requires Run(INITIAL, events) && Enabled(After(INITIAL, events), EvWriteOk)
    ensures var t := After(INITIAL, events);
            Step(t, EvWriteOk).io.undefined <==> t.stopped
  {
    RunReaches(events);
  }

  /** While connected the client has a read outstanding and its heartbeat goes on, unless a stop is on its way
      or the next segment breaks an escape and so has ended the reading. */
  lemma KeepsReading(events: seq<Event>)
    requires Run(INITIAL, events)
    ensures var t := After(INITIAL, events);
            && t.io.beats + t.io.rests <= 1
            && (t.connected && t.io.stopCalls == 0 ==>
                  && t.io.beats + t.io.rests == 1
                  && (t.io.reading || (FrameReady(t) && BreaksEscape(NextSegment(t)))))
  {
    RunReaches(events);
  }

  /** A read ends the io thread exactly when the segment it takes breaks an escape. */
  lemma ReadDiesExactly(s: State, order: seq<string>)
    requires Enabled(s, EvRead(order))
    ensures Step(s, EvRead(order)).io.dead <==> BreaksEscape(NextSegment(s))
  {
    NextSegmentIs(s);
    SegmentThrowsExactly(NextSegment(s));
    ReadIsTakeAndAnswer(s, order);
  }

  // ----- the read side -----

  lemma NextSegmentThrows(s: State)
    requires FrameReady(s) && BreaksEscape(NextSegment(s))
    ensures ReadStream(s.inputBuffer).thrown
  {
    var segment := NextSegment(s);
    IndexOfIsFirst(segment, STOP, |segment| - 1);
    SegmentThrowsExactly(segment);
    assert Split(s.inputBuffer, STOP).segments[0] == segment;
  }

  /** What a read client makes of a part of the frames. */
  lemma DeliveredSoFar(t: State, arrived: string, messages: seq<string>, coming: string)
    requires Consumed(t) && t.log.consumed + t.inputBuffer == arrived && arrived + coming == Frames(messages)
    ensures t.log.lines <= DropEmpty(messages) && !t.io.dead
    ensures coming == [] && !FrameReady(t) ==> t.log.lines == DropEmpty(messages) && t.inputBuffer == []
  {
    FramedRoundTrip(messages, arrived, coming);
    ReadStreamAppend(t.log.consumed, t.inputBuffer);
    SplitAppend(t.log.consumed, t.inputBuffer, STOP);
    assert [] + t.inputBuffer == t.inputBuffer;
    if t.io.dead {
      NextSegmentThrows(t);
    }
  }

  /** Whatever the interleaving of arrivals, reads and all other handlers: while the bytes that arrive are
      a prefix of concatenated frames, the lines handed on are a prefix of the non-empty messages and the
      reader does not throw; when all bytes are in and read, they are all of them. */
  lemma LinesDelivered(events: seq<Event>, messages: seq<string>, coming: string)
    requires Run(INITIAL, events) && Arrived(events) + coming == Frames(messages)
    ensures var t := After(INITIAL, events);
            && t.log.lines <= DropEmpty(messages)
            && !t.io.dead
            && (coming == [] && !FrameReady(t) ==> t.log.lines == DropEmpty(messages) && t.inputBuffer == [])
  {
    RunReaches(events);
    RunInputs(events);
    DeliveredSoFar(After(INITIAL, events), Arrived(events), messages, coming);
  }
}
