/** Each handler of the thread-safe client keeps the invariant. */
module ClientSteps {
  import opened Text
  import opened Escape
  import opened Framing
  import opened Helper
  import opened Segments
  import opened ClientModel
  import opened ClientInvariants

  lemma InitialInv()
    ensures Inv(INITIAL)
  {
    var none: map<string, Promise> := map[];
    assert none.Values == {};
  }

  lemma NextIdAt(i: nat)
    ensures Increment(IdAt(i)) == IdAt(i + 1)
  {
  }

  // ----- executing requests -----

  /** Taking the first waiting request off the list and executing it. */
  function ExecuteHead(s: State): State
    requires s.pendingWrites != []
  {
    Execute(s.(pendingWrites := s.pendingWrites[1..]), s.pendingWrites[0])
  }

  /** The invariant while requests are being executed: everything but the empty waiting list. */
  ghost predicate Executing(s: State) {
    && Conserved(s) && InOrder(s) && Queued(s) && KeysBelong(s) && Consumed(s)
    && !s.stopped && !s.io.connectFailed
  }

  lemma ExecuteHeadKeepsPromises(s: State)
    requires Executing(s) && s.pendingWrites != []
    ensures Conserved(ExecuteHead(s))
  {
    var q, r := Promises(s.pendingWrites), s.pendingWrites[0];
    var key := Number(r.message, s.nextId).key;
    PartitionExecute(q, s.pendingResponses, s.log.ledger.values.Keys, s.log.overwritten, |s.log.submitted|, key);
    assert Promises(s.pendingWrites[1..]) == q[1..];
  }

  lemma ExecuteHeadKeepsOrder(s: State)
    requires InOrder(s) && !s.stopped && !s.io.connectFailed && s.pendingWrites != []
    ensures InOrder(ExecuteHead(s))
  {
    NextIdAt(|s.log.executed|);
    var i := |s.log.executed|;
    assert s.pendingWrites[0] == Request(s.log.submitted[i], i);
    EnlistKeepsOrder(s.(pendingWrites := s.pendingWrites[1..]), s.pendingWrites[0],
                     Number(s.pendingWrites[0].message, s.nextId));
  }

  lemma EnlistKeepsOrder(s: State, r: Request, n: Numbered)
    requires var done, waiting, all := |s.log.executed|, |s.pendingWrites|, |s.log.submitted|;
             && done + 1 + waiting == all
             && (forall i :: 0 <= i < done ==> s.log.executed[i] == Command(Request(s.log.submitted[i], i), IdAt(i)))
             && (forall j :: 0 <= j < waiting ==>
                   s.pendingWrites[j] == Request(s.log.submitted[all - waiting + j], all - waiting + j))
             && r == Request(s.log.submitted[done], done)
             && s.nextId == IdAt(done) && Increment(s.nextId) == IdAt(done + 1)
    ensures InOrder(Enlist(s, r, n))
  {
  }

  lemma ExecuteHeadKeepsKeys(s: State)
    requires Executing(s) && s.pendingWrites != []
    ensures KeysBelong(ExecuteHead(s))
  {
    var keys := CommandKeys(s.log.executed);
    var key := Number(s.pendingWrites[0].message, s.nextId).key;
    BelongExecute(keys, s.pendingResponses, s.log.overwritten, key);
    assert CommandKeys(ExecuteHead(s).log.executed) == keys + [key];
  }

  lemma ExecuteHeadKeepsQueue(s: State)
    requires Executing(s) && s.pendingWrites != []
    ensures Queued(ExecuteHead(s))
  {
    var t := ExecuteHead(s);
    var r := s.pendingWrites[0];
    var n := Number(r.message, s.nextId);
    assert CommandFrames(t.log.executed) == CommandFrames(s.log.executed) + [n.frame];
    assert s.log.sent + (s.writeMsgs + [n.frame]) == (s.log.sent + s.writeMsgs) + [n.frame];
  }

  lemma ExecuteHeadKeeps(s: State)
    requires Executing(s) && s.pendingWrites != []
    ensures Executing(ExecuteHead(s))
  {
    ExecuteHeadKeepsPromises(s);
    ExecuteHeadKeepsOrder(s);
    ExecuteHeadKeepsKeys(s);
    ExecuteHeadKeepsQueue(s);
  }

  lemma EnlistFrame(s: State, r: Request, n: Numbered, waiting: seq<Request>)
    ensures Enlist(s.(pendingWrites := waiting), r, n) == Enlist(s, r, n).(pendingWrites := waiting)
  {
  }

  /** Executing never looks at the waiting list. */
  lemma {:induction false} ExecuteAllFrame(s: State, requests: seq<Request>, waiting: seq<Request>)
    ensures ExecuteAll(s.(pendingWrites := waiting), requests) == ExecuteAll(s, requests).(pendingWrites := waiting)
    decreases |requests|
  {
    if requests != [] {
      EnlistFrame(s, requests[0], Number(requests[0].message, s.nextId), waiting);
      ExecuteAllFrame(Execute(s, requests[0]), requests[1..], waiting);
    }
  }

  lemma ExecuteHeadFirst(s: State)
    requires s.pendingWrites != []
    ensures var h := ExecuteHead(s);
            ExecuteAll(s, s.pendingWrites).(pendingWrites := []) == ExecuteAll(h, h.pendingWrites).(pendingWrites := [])
  {
    var r, tail := s.pendingWrites[0], s.pendingWrites[1..];
    EnlistFrame(s, r, Number(r.message, s.nextId), tail);
    ExecuteAllFrame(Execute(s, r), tail, tail);
  }

  /** What executing requests leaves alone. */
  ghost predicate SameRest(s: State, t: State) {
    && t.io == s.io.(inFlight := t.io.inFlight)
    && t.connected == s.connected
    && t.stopped == s.stopped
    && t.inputBuffer == s.inputBuffer
    && t.log == s.log.(executed := t.log.executed, overwritten := t.log.overwritten)
  }

  lemma EnlistRest(s: State, r: Request, n: Numbered)
    ensures SameRest(s, Enlist(s, r, n))
  {
  }

  lemma {:induction false} ExecuteAllRest(s: State, requests: seq<Request>)
    ensures SameRest(s, ExecuteAll(s, requests))
    decreases |requests|
  {
    if requests != [] {
      EnlistRest(s, requests[0], Number(requests[0].message, s.nextId));
      ExecuteAllRest(Execute(s, requests[0]), requests[1..]);
    }
  }

  lemma {:induction false} ExecuteAllKeeps(s: State)
    requires Executing(s)
    ensures Executing(ExecuteAll(s, s.pendingWrites).(pendingWrites := []))
    decreases |s.pendingWrites|
  {
    if s.pendingWrites != [] {
      ExecuteHeadKeeps(s);
      ExecuteHeadFirst(s);
      ExecuteAllKeeps(ExecuteHead(s));
    } else {
      assert s.(pendingWrites := []) == s;
    }
  }

  /** The state with one more request on the waiting list. */
  function Enqueue(s: State, message: string): State {
    s.(log := s.log.(submitted := s.log.submitted + [message]),
       pendingWrites := s.pendingWrites + [Request(message, |s.log.submitted|)])
  }

  lemma EnqueueKeepsPromises(s: State, message: string)
    requires Conserved(s)
    ensures Conserved(Enqueue(s, message))
  {
    var n := |s.log.submitted|;
    assert Promises(Enqueue(s, message).pendingWrites) == Promises(s.pendingWrites) + [n];
    PartitionSubmit(Promises(s.pendingWrites), s.pendingResponses, s.log.ledger.values.Keys, s.log.overwritten, n);
  }

  lemma ConnectedWrite(s: State, message: string)
    requires s.connected && s.pendingWrites == []
    ensures Write(s, message) == ExecuteHead(Enqueue(s, message))
  {
    var s1 := s.(log := s.log.(submitted := s.log.submitted + [message]));
    var r := Request(message, |s.log.submitted|);
    EnlistFrame(s1, r, Number(message, s.nextId), []);
    assert s1.(pendingWrites := []) == s1;
    assert Enqueue(s, message).(pendingWrites := []) == s1;
  }

  lemma EnqueueKeepsOrder(s: State, message: string)
    requires InOrder(s)
    ensures InOrder(Enqueue(s, message))
  {
  }

  lemma EnqueueKeepsRest(s: State, message: string)
    requires Queued(s) && KeysBelong(s) && Consumed(s)
    ensures var t := Enqueue(s, message); Queued(t) && KeysBelong(t) && Consumed(t)
  {
  }

  lemma EnqueueKeeps(s: State, message: string)
    requires Inv(s)
    ensures !s.connected ==> Inv(Enqueue(s, message))
    ensures s.connected ==> Executing(Enqueue(s, message))
  {
    EnqueueKeepsPromises(s, message);
    EnqueueKeepsOrder(s, message);
    EnqueueKeepsRest(s, message);
  }

  lemma WriteKeeps(s: State, message: string)
    requires Inv(s)
    ensures Inv(Write(s, message))
  {
    EnqueueKeeps(s, message);
    if s.connected {
      ExecuteHeadKeeps(Enqueue(s, message));
      ConnectedWrite(s, message);
      assert Phases(Write(s, message));
    }
  }

  /** Beginning to read and to send heartbeats completes the connect. */
  lemma ConnectedKeeps(s: State)
    requires Executing(s) && s.connected && s.pendingWrites == []
    requires s.io.started && s.io.socketOpen && !s.io.connecting && s.io.beats + s.io.rests == 0
    requires s.io.writeFailed ==> s.io.stopCalls > 0
    ensures Inv(SendHeartbeat(s.(io := s.io.(reading := true))))
  {
    var t := SendHeartbeat(s.(io := s.io.(reading := true)));
    assert Conserved(t) && InOrder(t) && Queued(t) && KeysBelong(t) && Consumed(t);
    assert Phases(t);
  }

  lemma ConnectOkKeeps(s: State)
    requires Inv(s) && s.io.connecting && s.io.socketOpen
    ensures Inv(ConnectOk(s))
  {
    var s1 := s.(connected := true, io := s.io.(connecting := false));
    ExecuteAllKeeps(s1);
    ExecuteAllRest(s1, s1.pendingWrites);
    var s2 := ExecuteAll(s1, s1.pendingWrites).(pendingWrites := []);
    ConnectedKeeps(s2);
  }

  /** Completing waiting promises with the empty reply. */
  lemma DropQueueKeeps(s: State)
    requires Conserved(s)
    ensures Conserved(s.(pendingWrites := [],
                         log := s.log.(ledger := SetAll(s.log.ledger, Promises(s.pendingWrites), ""))))
  {
    var q := Promises(s.pendingWrites);
    forall i | 0 <= i < |q|
      ensures q[i] !in s.log.ledger.values
    {
      assert q[i] in q;
    }
    SetAllSets(s.log.ledger, q, "");
    PartitionDropQueue(q, s.pendingResponses, s.log.ledger.values.Keys, SetAll(s.log.ledger, q, "").values.Keys,
                       s.log.overwritten, |s.log.submitted|);
    assert Promises([]) == [];
  }

  lemma ConnectFailedKeeps(s: State)
    requires Inv(s) && s.io.connecting
    ensures Inv(ConnectFailed(s))
  {
    DropQueueKeeps(s);
  }

  /** Taking the head off the queue, and beginning to write the next frame. */
  lemma QueueAdvances(sent: seq<string>, queue: seq<string>)
    requires queue != []
    ensures sent + queue == (sent + [queue[0]]) + queue[1..]
    ensures |queue| > 1 ==> (sent + [queue[0]]) + [queue[1]] <= sent + queue
  {
  }

  lemma WrittenNext(io: Io, queue: seq<string>)
    requires |io.inFlight| == 1 && queue != []
    ensures Written(io, queue).inFlight == if |queue| > 1 then [queue[1]] else []
  {
    assert io.inFlight[1..] == [];
  }

  lemma WriteOkKeepsQueue(s: State)
    requires Queued(s) && s.io.inFlight != [] && !s.stopped
    ensures Queued(WriteOk(s))
  {
    WrittenNext(s.io, s.writeMsgs);
    QueueAdvances(s.log.sent, s.writeMsgs);
  }

  lemma LateWriteOkKeepsQueue(s: State)
    requires Queued(s) && s.io.inFlight != [] && s.stopped && s.writeMsgs == []
    ensures Queued(WriteOk(s))
  {
    assert s.log.sent + s.io.inFlight == s.log.sent + [s.io.inFlight[0]] + [];
  }

  lemma WriteOkLeaves(s: State)
    requires Conserved(s) && InOrder(s) && KeysBelong(s) && s.io.inFlight != []
    ensures var t := WriteOk(s); Conserved(t) && InOrder(t) && KeysBelong(t)
  {
  }

  lemma WriteOkLeavesFlags(s: State)
    requires Phases(s) && s.io.inFlight != []
    ensures Phases(WriteOk(s))
  {
  }

  lemma WriteOkLeavesRead(s: State)
    requires Consumed(s) && s.io.inFlight != []
    ensures Consumed(WriteOk(s))
  {
    var t := WriteOk(s);
    assert t.log.consumed == s.log.consumed && t.log.lines == s.log.lines && t.log.traps == s.log.traps;
    assert t.inputBuffer == s.inputBuffer && t.io.dead == s.io.dead;
  }

  lemma WriteOkKeeps(s: State)
    requires Inv(s) && s.io.inFlight != []
    ensures Inv(WriteOk(s))
  {
    if s.stopped {
      LateWriteOkKeepsQueue(s);
    } else {
      WriteOkKeepsQueue(s);
    }
    WriteOkLeaves(s);
    WriteOkLeavesFlags(s);
    WriteOkLeavesRead(s);
  }

  /** Changes of the read and write flags and of posted stops concern only the queue. */
  lemma IoKeeps(s: State, io: Io)
    requires Inv(s) && Queued(s.(io := io)) && Phases(s.(io := io))
    requires io == s.io.(reading := io.reading, inFlight := io.inFlight, writeFailed := io.writeFailed,
                            beats := io.beats, rests := io.rests, stopCalls := io.stopCalls)
    ensures Inv(s.(io := io))
  {
    var t := s.(io := io);
    assert io.started == s.io.started && io.connecting == s.io.connecting && io.connectFailed == s.io.connectFailed;
    assert io.socketOpen == s.io.socketOpen && io.dead == s.io.dead;
    assert Conserved(t) && InOrder(t) && KeysBelong(t) && Consumed(t);
  }

  lemma WriteFailedKeeps(s: State)
    requires Inv(s) && s.io.inFlight != []
    ensures Inv(WriteFailed(s))
  {
    IoKeeps(s, WriteFailed(s).io);
    assert WriteFailed(s) == s.(io := WriteFailed(s).io);
  }

  lemma BeatKeeps(s: State, failed: bool)
    requires Inv(s) && s.io.beats > 0
    ensures Inv(HeartbeatSent(s, failed))
  {
    var io := HeartbeatSent(s, failed).io;
    assert Phases(s.(io := io)) && Queued(s.(io := io));
    IoKeeps(s, io);
    assert HeartbeatSent(s, failed) == s.(io := io);
  }

  lemma RestKeeps(s: State)
    requires Inv(s) && s.io.rests > 0
    ensures Inv(HeartbeatTimer(s))
  {
    var io := HeartbeatTimer(s).io;
    assert Phases(s.(io := io)) && Queued(s.(io := io));
    IoKeeps(s, io);
    assert HeartbeatTimer(s) == s.(io := io);
  }

  // ----- stopping -----

  lemma DropKeysKeeps(s: State, order: seq<string>)
    requires Conserved(s) && IsOrder(order, s.pendingResponses)
    ensures var l := SetAll(s.log.ledger, Lookup(order, s.pendingResponses), "");
            Conserved(s.(pendingResponses := map[], log := s.log.(ledger := l)))
  {
    var ps := Lookup(order, s.pendingResponses);
    LookupCovers(order, s.pendingResponses);
    forall i | 0 <= i < |ps|
      ensures ps[i] !in s.log.ledger.values
    {
      assert ps[i] in ps;
    }
    SetAllSets(s.log.ledger, ps, "");
    PartitionDropKeys(Promises(s.pendingWrites), s.pendingResponses, s.log.ledger.values.Keys,
                      SetAll(s.log.ledger, ps, "").values.Keys, s.log.overwritten, |s.log.submitted|);
  }

  /** A stop closes the socket, uses up one call, and empties everything pending; what has been sent, read and
      overwritten stays. */
  lemma StopShape(s: State, order: seq<string>)
    requires IsOrder(order, s.pendingResponses) && s.io.stopCalls > 0
    ensures var t := Stop(s, order);
            && t == s.(connected := false, stopped := true, pendingWrites := [], pendingResponses := map[],
                       writeMsgs := [], io := s.io.(socketOpen := false, stopCalls := s.io.stopCalls - 1),
                       log := s.log.(ledger := t.log.ledger))
            && t.log.ledger == SetAll(SetAll(s.log.ledger, Lookup(order, s.pendingResponses), ""),
                                      Promises(s.pendingWrites), "")
  {
    assert Promises([]) == [];
  }

  lemma StopKeepsPromises(s: State, order: seq<string>)
    requires Conserved(s) && IsOrder(order, s.pendingResponses) && s.io.stopCalls > 0
    ensures Conserved(Stop(s, order))
  {
    StopShape(s, order);
    var s1 := s.(stopped := true, connected := false,
                 io := s.io.(socketOpen := false, stopCalls := s.io.stopCalls - 1));
    DropKeysKeeps(s1, order);
    DropQueueKeeps(s1.(pendingResponses := map[],
                       log := s1.log.(ledger := SetAll(s1.log.ledger, Lookup(order, s1.pendingResponses), ""))));
  }

  lemma StopKeepsQueue(s: State, order: seq<string>)
    requires InOrder(s) && Queued(s) && IsOrder(order, s.pendingResponses) && s.io.stopCalls > 0
    ensures InOrder(Stop(s, order)) && Queued(Stop(s, order))
  {
    StopShape(s, order);
  }

  lemma StopKeepsRest(s: State, order: seq<string>)
    requires KeysBelong(s) && Phases(s) && Consumed(s) && IsOrder(order, s.pendingResponses) && s.io.stopCalls > 0
    ensures KeysBelong(Stop(s, order)) && Phases(Stop(s, order)) && Consumed(Stop(s, order))
  {
    StopShape(s, order);
  }

  lemma StopKeeps(s: State, order: seq<string>)
    requires Inv(s) && IsOrder(order, s.pendingResponses) && s.io.stopCalls > 0
    ensures Inv(Stop(s, order))
  {
    StopKeepsPromises(s, order);
    StopKeepsQueue(s, order);
    StopKeepsRest(s, order);
  }

  // ----- receiving -----

  lemma NextSegmentIs(s: State)
    requires FrameReady(s)
    ensures IsSegment(NextSegment(s), STOP)
  {
    var n := IndexOf(s.inputBuffer, STOP);
    assert forall j :: 0 <= j < n ==> NextSegment(s)[j] == s.inputBuffer[j];
    IndexOfIsFirst(NextSegment(s), STOP, n);
  }

  lemma HandleResponseKeeps(s: State, response: string, order: seq<string>)
    requires Conserved(s) && KeysBelong(s) && IsOrder(order, s.pendingResponses)
    ensures Conserved(HandleResponse(s, response, order)) && KeysBelong(HandleResponse(s, response, order))
  {
    FirstMatchIsKey(response, order);
    match FirstMatch(response, order)
    case None =>
    case Some(k) =>
      var p := s.pendingResponses[k];
      PartitionAnswer(Promises(s.pendingWrites), s.pendingResponses, s.log.ledger.values.Keys, s.log.overwritten,
                      |s.log.submitted|, k);
      assert SetValue(s.log.ledger, p, Matched(response, k).value).values.Keys == s.log.ledger.values.Keys + {p};
  }

  lemma ConsumeSegment(consumed: string, lines: seq<string>, segment: string)
    requires Split(consumed, STOP).rest == [] && ReadStream(consumed) == Reading(lines, false)
    requires IsSegment(segment, STOP) && !ParseSegment(segment).Thrown?
    ensures Split(consumed + segment, STOP).rest == []
    ensures var p := ParseSegment(segment);
            ReadStream(consumed + segment) == Reading(if p.Line? then lines + [p.text] else lines, false)
  {
    SplitSnoc(consumed, segment, STOP);
    ReadSegmentsAppend(Split(consumed, STOP).segments, [segment]);
    ReadOne(segment);
  }

  /** The state once a segment has been taken off the buffer, and its line, if any, has been recorded. */
  function TakeSegment(s: State, line: seq<string>): State
    requires FrameReady(s)
  {
    var n := IndexOf(s.inputBuffer, STOP) + 1;
    var traps := if line != [] && StartsWith(line[0], "d") then line else [];
    s.(inputBuffer := s.inputBuffer[n..],
       log := s.log.(consumed := s.log.consumed + s.inputBuffer[..n], lines := s.log.lines + line,
                     traps := s.log.traps + traps))
  }

  lemma TrapLinesSnoc(lines: seq<string>, line: string)
    ensures TrapLines(lines + [line]) == TrapLines(lines) + if StartsWith(line, "d") then [line] else []
  {
    assert (lines + [line])[..|lines|] == lines;
  }

  lemma TakeSegmentKeeps(s: State)
    requires Consumed(s) && FrameReady(s) && !s.io.dead
    requires !ParseSegment(NextSegment(s)).Thrown?
    ensures var p := ParseSegment(NextSegment(s));
            Consumed(TakeSegment(s, if p.Line? then [p.text] else []))
  {
    var n := IndexOf(s.inputBuffer, STOP) + 1;
    var p := ParseSegment(s.inputBuffer[..n]);
    IndexOfIsFirst(s.inputBuffer[..n], STOP, n - 1);
    ConsumeSegment(s.log.consumed, s.log.lines, s.inputBuffer[..n]);
    if p.Line? {
      TrapLinesSnoc(s.log.lines, p.text);
    } else {
      assert s.log.lines + [] == s.log.lines && s.log.traps + [] == s.log.traps;
    }
  }

  /** Trap data and ping replies answer no request; every other line is a response. */
  function Answer(s: State, line: string, order: seq<string>): State
    requires IsOrder(order, s.pendingResponses)
  {
    if StartsWith(line, "d") || StartsWith(line, "gPing") then s else HandleResponse(s, line, order)
  }

  lemma ReadIsTakeAndAnswer(s: State, order: seq<string>)
    requires IsOrder(order, s.pendingResponses) && FrameReady(s)
    ensures var p := ParseSegment(NextSegment(s));
            Read(s, order) ==
            match p
            case Thrown(_) => s.(io := s.io.(reading := false, dead := true))
            case Malformed => TakeSegment(s, [])
            case Line(line) => Answer(TakeSegment(s, [line]), line, order)
  {
    var n := IndexOf(s.inputBuffer, STOP) + 1;
    IndexOfIsFirst(s.inputBuffer[..n], STOP, n - 1);
    NoEmptyLines(s.inputBuffer[..n]);
    assert s.log.lines + [] == s.log.lines && s.log.traps + [] == s.log.traps;
  }

  lemma TakeSegmentLeaves(s: State, line: seq<string>)
    requires Conserved(s) && InOrder(s) && KeysBelong(s) && FrameReady(s)
    ensures var t := TakeSegment(s, line); Conserved(t) && InOrder(t) && KeysBelong(t)
  {
  }

  lemma TakeSegmentLeavesQueue(s: State, line: seq<string>)
    requires Queued(s) && Phases(s) && FrameReady(s)
    ensures var t := TakeSegment(s, line); Queued(t) && Phases(t)
  {
  }

  lemma TakeSegmentKeepsAll(s: State, line: seq<string>)
    requires Inv(s) && FrameReady(s) && Consumed(TakeSegment(s, line))
    ensures Inv(TakeSegment(s, line))
  {
    TakeSegmentLeaves(s, line);
    TakeSegmentLeavesQueue(s, line);
  }

  lemma ThrowKeepsAll(s: State)
    requires Inv(s) && FrameReady(s)
    requires ParseSegment(NextSegment(s)).Thrown?
    ensures Inv(s.(io := s.io.(reading := false, dead := true)))
  {
    var t := s.(io := s.io.(reading := false, dead := true));
    NextSegmentIs(s);
    SegmentThrowsExactly(NextSegment(s));
    assert NextSegment(t) == NextSegment(s);
    assert Conserved(t) && InOrder(t) && KeysBelong(t);
    assert Queued(t) && Phases(t) && Consumed(t);
  }

  lemma LineKeeps(s: State, line: string, order: seq<string>)
    requires Inv(s) && IsOrder(order, s.pendingResponses)
    ensures Inv(Answer(s, line, order))
  {
    if !StartsWith(line, "d") && !StartsWith(line, "gPing") {
      HandleResponseKeepsAll(s, line, order);
    }
  }

  lemma ReadKeeps(s: State, order: seq<string>)
    requires Inv(s) && IsOrder(order, s.pendingResponses) && FrameReady(s) && !s.io.dead
    ensures Inv(Read(s, order))
  {
    ReadIsTakeAndAnswer(s, order);
    match ParseSegment(NextSegment(s))
    case Thrown(_) =>
      ThrowKeepsAll(s);
    case Malformed =>
      TakeSegmentKeeps(s);
      TakeSegmentKeepsAll(s, []);
    case Line(line) =>
      TakeSegmentKeeps(s);
      TakeSegmentKeepsAll(s, [line]);
      LineKeeps(TakeSegment(s, [line]), line, order);
  }

  /** A reply touches the awaited keys and the promises, nothing else. */
  function Replied(s: State, w: map<string, Promise>, l: Ledger): State {
    s.(pendingResponses := w, log := s.log.(ledger := l))
  }

  lemma RepliedOrder(s: State, w: map<string, Promise>, l: Ledger)
    requires InOrder(s)
    ensures InOrder(Replied(s, w, l))
  {
  }

  lemma RepliedQueue(s: State, w: map<string, Promise>, l: Ledger)
    requires Queued(s)
    ensures Queued(Replied(s, w, l))
  {
  }

  lemma RepliedFlags(s: State, w: map<string, Promise>, l: Ledger)
    requires Phases(s) && (s.pendingResponses == map[] ==> w == map[])
    ensures Phases(Replied(s, w, l))
  {
  }

  lemma RepliedRead(s: State, w: map<string, Promise>, l: Ledger)
    requires Consumed(s)
    ensures Consumed(Replied(s, w, l))
  {
  }

  lemma HandleResponseKeepsAll(s: State, response: string, order: seq<string>)
    requires Inv(s) && IsOrder(order, s.pendingResponses)
    ensures Inv(HandleResponse(s, response, order))
  {
    HandleResponseKeeps(s, response, order);
    var t := HandleResponse(s, response, order);
    FirstMatchIsKey(response, order);
    assert t == Replied(s, t.pendingResponses, t.log.ledger);
    RepliedOrder(s, t.pendingResponses, t.log.ledger);
    RepliedQueue(s, t.pendingResponses, t.log.ledger);
    RepliedFlags(s, t.pendingResponses, t.log.ledger);
    RepliedRead(s, t.pendingResponses, t.log.ledger);
  }

  lemma StartKeeps(s: State)
    requires Inv(s) && Enabled(s, EvStart)
    ensures Inv(Start(s))
  {
    var t := Start(s);
    assert Conserved(t) && InOrder(t) && Queued(t) && KeysBelong(t) && Phases(t) && Consumed(t);
  }

  lemma ArriveKeeps(s: State, bytes: string)
    requires Inv(s) && !s.io.dead
    ensures Inv(s.(inputBuffer := s.inputBuffer + bytes))
  {
    var t := s.(inputBuffer := s.inputBuffer + bytes);
    assert Conserved(t) && InOrder(t) && Queued(t) && KeysBelong(t) && Phases(t) && Consumed(t);
  }

  lemma CallStopKeeps(s: State)
    requires Inv(s)
    ensures Inv(CallStop(s))
  {
    IoKeeps(s, CallStop(s).io);
    assert CallStop(s) == s.(io := CallStop(s).io);
  }

  lemma ReadFailedKeeps(s: State)
    requires Inv(s) && s.io.reading
    ensures Inv(ReadFailed(s))
  {
    IoKeeps(s, ReadFailed(s).io);
    assert ReadFailed(s) == s.(io := ReadFailed(s).io);
  }

  /** Every step of the client keeps the invariant. */
  lemma StepKeeps(s: State, e: Event)
    requires Inv(s) && Enabled(s, e)
    ensures Inv(Step(s, e))
  {
    match e
    case EvStart => StartKeeps(s);
    case EvWrite(message) => WriteKeeps(s, message);
    case EvConnectOk => ConnectOkKeeps(s);
    case EvConnectFailed => ConnectFailedKeeps(s);
    case EvWriteOk => WriteOkKeeps(s);
    case EvWriteFailed => WriteFailedKeeps(s);
    case EvHeartbeat(failed) => BeatKeeps(s, failed);
    case EvHeartbeatTimer => RestKeeps(s);
    case EvArrive(bytes) => ArriveKeeps(s, bytes);
    case EvRead(order) => ReadKeeps(s, order);
    case EvReadFailed => ReadFailedKeeps(s);
    case EvCallStop => CallStopKeeps(s);
    case EvStop(order) => StopKeeps(s, order);
  }

  lemma StepKeepsInv(s: State, e: Event)
    requires Enabled(s, e)
    ensures Inv(s) ==> Inv(Step(s, e))
  {
    if Inv(s) {
      StepKeeps(s, e);
    }
  }
}
