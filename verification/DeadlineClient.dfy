/** The example client of examples/async_tcp_client.cpp: connect, read, heartbeat and deadline actors that
    share one socket. Expiry of the deadline and the outcomes of operations are arguments. */
module DeadlineClient {
  import opened Segments

  const LF: char := '\n'

  /** The asynchronous operations whose handlers have not run yet: the endpoint of each connect, and how many
      reads, heartbeat writes, heartbeat timers and deadline waits there are. */
  datatype Outstanding = Outstanding(connects: seq<nat>, readings: nat, writings: nat, timers: nat, waits: nat)

  /** `attempts` records the endpoints tried, `connected` whether one answered, `consumed` and `printed` what
      has been read. */
  datatype Log = Log(started: bool, connected: bool, attempts: seq<nat>, consumed: string, printed: seq<string>)

  datatype State = State(stopped: bool, endpoints: nat, socketOpen: bool, inputBuffer: string, ops: Outstanding, log: Log)

  const INITIAL := State(false, 0, false, [], Outstanding([], 0, 0, 0, 0), Log(false, false, [], [], []))

  function Total(ops: Outstanding): nat {
    |ops.connects| + ops.readings + ops.writings + ops.timers + ops.waits
  }

  // ----- the handlers -----

  function Stop(s: State): State {
    s.(stopped := true, socketOpen := false)
  }

  function StartConnect(s: State, endpoint: nat): State {
    if endpoint < s.endpoints then
      s.(socketOpen := true, ops := s.ops.(connects := s.ops.connects + [endpoint]),
         log := s.log.(attempts := s.log.attempts + [endpoint]))
    else Stop(s)
  }

  function WaitDeadline(s: State): State {
    s.(ops := s.ops.(waits := s.ops.waits + 1))
  }

  function Start(s: State, endpoints: nat): State {
    WaitDeadline(StartConnect(s.(endpoints := endpoints, log := s.log.(started := true)), 0))
  }

  function StartRead(s: State): State {
    if s.stopped then s else s.(ops := s.ops.(readings := s.ops.readings + 1))
  }

  function StartWrite(s: State): State {
    if s.stopped then s else s.(ops := s.ops.(writings := s.ops.writings + 1))
  }

  function HandleConnect(s: State, failed: bool): State
    requires s.ops.connects != []
  {
    var endpoint := s.ops.connects[0];
    var s1 := s.(ops := s.ops.(connects := s.ops.connects[1..]));
    if s.stopped then s1
    else if !s.socketOpen then StartConnect(s1, endpoint + 1)
    else if failed then StartConnect(s1.(socketOpen := false), endpoint + 1)
    else StartWrite(StartRead(s1.(log := s1.log.(connected := true))))
  }

  /** A line of the input without its LF; empty lines are heartbeats. */
  function Printed(segment: string): seq<string>
    requires segment != []
  {
    if |segment| == 1 then [] else [segment[..|segment| - 1]]
  }

  predicate LineReady(s: State) {
    IndexOf(s.inputBuffer, LF) < |s.inputBuffer|
  }

  function TakeLine(s: State): State
    requires LineReady(s)
  {
    var n := IndexOf(s.inputBuffer, LF) + 1;
    var segment := s.inputBuffer[..n];
    s.(inputBuffer := s.inputBuffer[n..],
       log := s.log.(consumed := s.log.consumed + segment, printed := s.log.printed + Printed(segment)))
  }

  function HandleRead(s: State, failed: bool): State
    requires s.ops.readings > 0 && (!failed ==> LineReady(s))
  {
    var s1 := s.(ops := s.ops.(readings := s.ops.readings - 1));
    if s.stopped then s1 else if failed then Stop(s1) else StartRead(TakeLine(s1))
  }

  function HandleWrite(s: State, failed: bool): State
    requires s.ops.writings > 0
  {
    var s1 := s.(ops := s.ops.(writings := s.ops.writings - 1));
    if s.stopped then s1
    else if failed then Stop(s1)
    else s1.(ops := s1.ops.(timers := s1.ops.timers + 1))
  }

  function HandleTimer(s: State): State
    requires s.ops.timers > 0
  {
    StartWrite(s.(ops := s.ops.(timers := s.ops.timers - 1)))
  }

  function CheckDeadline(s: State, expired: bool): State
    requires s.ops.waits > 0
  {
    var s1 := s.(ops := s.ops.(waits := s.ops.waits - 1));
    if s.stopped then s1 else WaitDeadline(if expired then s1.(socketOpen := false) else s1)
  }

  // ----- runs -----

  datatype Event =
    | EvStart(endpoints: nat)
    | EvStop
    | EvArrive(bytes: string)
    | EvConnect(failed: bool)
    | EvRead(failed: bool)
    | EvWrite(failed: bool)
    | EvTimer
    | EvDeadline(expired: bool)

  predicate IsHandler(e: Event) {
    !e.EvStart? && !e.EvStop? && !e.EvArrive?
  }

  predicate Enabled(s: State, e: Event) {
    match e
    case EvStart(_) => !s.log.started
    case EvStop => true
    case EvArrive(_) => s.ops.readings > 0
    case EvConnect(_) => s.ops.connects != []
    case EvRead(failed) => s.ops.readings > 0 && (!failed ==> LineReady(s))
    case EvWrite(_) => s.ops.writings > 0
    case EvTimer => s.ops.timers > 0
    case EvDeadline(_) => s.ops.waits > 0
  }

  function Step(s: State, e: Event): State
    requires Enabled(s, e)
  {
    match e
    case EvStart(endpoints) => Start(s, endpoints)
    case EvStop => Stop(s)
    case EvArrive(bytes) => s.(inputBuffer := s.inputBuffer + bytes)
    case EvConnect(failed) => HandleConnect(s, failed)
    case EvRead(failed) => HandleRead(s, failed)
    case EvWrite(failed) => HandleWrite(s, failed)
    case EvTimer => HandleTimer(s)
    case EvDeadline(expired) => CheckDeadline(s, expired)
  }

  predicate Run(s: State, events: seq<Event>)
    decreases |events|
  {
    events == [] || (Enabled(s, events[0]) && Run(Step(s, events[0]), events[1..]))
  }

  function After(s: State, events: seq<Event>): State
    requires Run(s, events)
    decreases |events|
  {
    if events == [] then s else After(Step(s, events[0]), events[1..])
  }

  // ----- the class -----

  class AsyncTcpClient {
    var stopped: bool
    var endpoints: nat
    var socketOpen: bool
    var inputBuffer: string
    ghost var ops: Outstanding
    ghost var log: Log

    ghost function View(): State
      reads this
    {
      State(stopped, endpoints, socketOpen, inputBuffer, ops, log)
    }

    constructor ()
      ensures View() == INITIAL && Inv(View())
    {
      stopped, endpoints, socketOpen, inputBuffer := false, 0, false, [];
      ops, log := Outstanding([], 0, 0, 0, 0), Log(false, false, [], [], []);
    }

    method StartClient(endpoints: nat)
      requires Enabled(View(), EvStart(endpoints))
      modifies this
      ensures View() == Start(old(View()), endpoints)
      ensures Inv(old(View())) ==> Inv(View())
    {
      StepKeepsInv(View(), EvStart(endpoints));
      this.endpoints := endpoints;
      log := log.(started := true);
      BeginConnect(0);
      ops := ops.(waits := ops.waits + 1);
    }

    method StopClient()
      modifies this`stopped, this`socketOpen
      ensures View() == Stop(old(View()))
      ensures Inv(old(View())) ==> Inv(View())
    {
      StepKeepsInv(View(), EvStop);
      stopped := true;
      socketOpen := false;
    }

    method BeginConnect(endpoint: nat)
      modifies this
      ensures View() == StartConnect(old(View()), endpoint)
    {
      if endpoint != endpoints && endpoint < endpoints {
        socketOpen := true;
        ops := ops.(connects := ops.connects + [endpoint]);
        log := log.(attempts := log.attempts + [endpoint]);
      } else {
        StopClient();
      }
    }

    method OnConnect(failed: bool, endpoint: nat)
      requires ops.connects != [] && ops.connects[0] == endpoint
      modifies this
      ensures View() == HandleConnect(old(View()), failed)
      ensures Inv(old(View())) ==> Inv(View())
    {
      StepKeepsInv(View(), EvConnect(failed));
      ops := ops.(connects := ops.connects[1..]);
      if stopped {
        return;
      }
      if !socketOpen {
        BeginConnect(endpoint + 1);
      } else if failed {
        socketOpen := false;
        BeginConnect(endpoint + 1);
      } else {
        log := log.(connected := true);
        BeginRead();
        BeginWrite();
      }
    }

    method BeginRead()
      modifies this`ops
      ensures View() == StartRead(old(View()))
    {
      if stopped {
        return;
      }
      ops := ops.(readings := ops.readings + 1);
    }

    method OnRead(failed: bool)
      requires Enabled(View(), EvRead(failed))
      modifies this
      ensures View() == HandleRead(old(View()), failed)
      ensures Inv(old(View())) ==> Inv(View())
    {
      StepKeepsInv(View(), EvRead(failed));
      ops := ops.(readings := ops.readings - 1);
      if stopped {
        return;
      }
      if !failed {
        var n := IndexOf(inputBuffer, LF) + 1;
        var line := inputBuffer[..n - 1];
        log := log.(consumed := log.consumed + inputBuffer[..n]);
        assert inputBuffer[..n][..n - 1] == line;
        inputBuffer := inputBuffer[n..];
        if line != [] {
          log := log.(printed := log.printed + [line]);
        }
        BeginRead();
      } else {
        StopClient();
      }
    }

    method BeginWrite()
      modifies this`ops
      ensures View() == StartWrite(old(View()))
    {
      if stopped {
        return;
      }
      ops := ops.(writings := ops.writings + 1);
    }

    method OnWrite(failed: bool)
      requires ops.writings > 0
      modifies this
      ensures View() == HandleWrite(old(View()), failed)
      ensures Inv(old(View())) ==> Inv(View())
    {
      StepKeepsInv(View(), EvWrite(failed));
      ops := ops.(writings := ops.writings - 1);
      if stopped {
        return;
      }
      if !failed {
        ops := ops.(timers := ops.timers + 1);
      } else {
        StopClient();
      }
    }

    method OnTimer()
      requires ops.timers > 0
      modifies this`ops
      ensures View() == HandleTimer(old(View()))
      ensures Inv(old(View())) ==> Inv(View())
    {
      StepKeepsInv(View(), EvTimer);
      ops := ops.(timers := ops.timers - 1);
      BeginWrite();
    }

    method OnDeadline(expired: bool)
      requires ops.waits > 0
      modifies this`ops, this`socketOpen
      ensures View() == CheckDeadline(old(View()), expired)
      ensures Inv(old(View())) ==> Inv(View())
    {
      StepKeepsInv(View(), EvDeadline(expired));
      ops := ops.(waits := ops.waits - 1);
      if stopped {
        return;
      }
      if expired {
        socketOpen := false;
      }
      ops := ops.(waits := ops.waits + 1);
    }
  }

  // ----- what every step keeps -----

  function Lines(segments: seq<string>): seq<string> {
    if segments == [] then [] else (if segments[0] == [] then [] else Printed(segments[0])) + Lines(segments[1..])
  }

  /** Before a stop: exactly one connect or read, one deadline wait, and once connected exactly one heartbeat
      write or timer are outstanding. Ever: at most one of each, and endpoints are tried in order, once. */
  ghost predicate Actors(s: State) {
    && |s.ops.connects| + s.ops.readings <= 1 && s.ops.writings + s.ops.timers <= 1 && s.ops.waits <= 1
    && (s.log.started && !s.stopped ==>
          && s.ops.waits == 1
          && |s.ops.connects| == (if s.log.connected then 0 else 1)
          && s.ops.readings == (if s.log.connected then 1 else 0)
          && s.ops.writings + s.ops.timers == (if s.log.connected then 1 else 0))
    && (!s.log.started ==> Total(s.ops) == 0 && s.log.attempts == [] && !s.log.connected)
  }

  ghost predicate InTurn(s: State) {
    && |s.log.attempts| <= s.endpoints
    && (forall i :: 0 <= i < |s.log.attempts| ==> s.log.attempts[i] == i)
    && (forall c :: c in s.ops.connects ==> c + 1 == |s.log.attempts|)
  }

  ghost predicate ReadInOrder(s: State) {
    var p := Split(s.log.consumed, LF);
    p.rest == [] && s.log.printed == Lines(p.segments)
  }

  function Wire(lines: seq<string>): string {
    if lines == [] then [] else lines[0] + ['\n'] + Wire(lines[1..])
  }

  /** Lines sent one after the other are the lines printed, without the empty ones. */
  lemma {:induction false} LinesOfWire(lines: seq<string>)
    requires forall k :: 0 <= k < |lines| ==> '\n' !in lines[k]
    ensures Split(Wire(lines), LF).rest == [] && Lines(Split(Wire(lines), LF).segments) == DropEmpty(lines)
  {
    if lines != [] {
      var segment, tail := lines[0] + [LF], Wire(lines[1..]);
      LinesOfWire(lines[1..]);
      assert forall j :: 0 <= j < |lines[0]| ==> segment[j] == lines[0][j] != LF;
      IndexOfIsFirst(segment, LF, |lines[0]|);
      SplitOne(segment, tail, LF);
      assert ([segment] + Split(tail, LF).segments)[1..] == Split(tail, LF).segments;
    }
  }

  ghost predicate Inv(s: State) {
    Actors(s) && InTurn(s) && ReadInOrder(s)
  }

  lemma ConnectKeeps(s: State, failed: bool)
    requires Inv(s) && s.ops.connects != []
    ensures Inv(HandleConnect(s, failed))
  {
    assert s.ops.connects[0] in s.ops.connects;
  }

  lemma {:induction false} LinesAppend(a: seq<string>, segment: string)
    requires segment != []
    ensures Lines(a + [segment]) == Lines(a) + Printed(segment)
  {
    if a == [] {
      assert a + [segment] == [segment] && Lines([segment][1..]) == [];
      assert Printed(segment) + [] == Printed(segment);
    } else {
      assert (a + [segment])[1..] == a[1..] + [segment];
      LinesAppend(a[1..], segment);
      var h := if a[0] == [] then [] else Printed(a[0]);
      assert h + (Lines(a[1..]) + Printed(segment)) == (h + Lines(a[1..])) + Printed(segment);
    }
  }

  lemma TakeLineKeeps(s: State)
    requires ReadInOrder(s) && LineReady(s)
    ensures ReadInOrder(TakeLine(s))
  {
    var n := IndexOf(s.inputBuffer, LF) + 1;
    var segment := s.inputBuffer[..n];
    IndexOfIsFirst(segment, LF, n - 1);
    SplitSnoc(s.log.consumed, segment, LF);
    LinesAppend(Split(s.log.consumed, LF).segments, segment);
  }

  lemma ReadKeeps(s: State, failed: bool)
    requires Inv(s) && s.ops.readings > 0 && (!failed ==> LineReady(s))
    ensures Inv(HandleRead(s, failed))
  {
    var s1 := s.(ops := s.ops.(readings := s.ops.readings - 1));
    if !failed {
      TakeLineKeeps(s1);
    }
  }

  lemma {:induction false} StepKeeps(s: State, e: Event)
    requires Inv(s) && Enabled(s, e)
    ensures Inv(Step(s, e))
  {
    match e
    case EvConnect(failed) => ConnectKeeps(s, failed);
    case EvRead(failed) => ReadKeeps(s, failed);
    case EvStart(_) =>
    case EvStop =>
    case EvArrive(_) =>
    case EvWrite(_) =>
    case EvTimer =>
    case EvDeadline(_) =>
  }

  lemma StepKeepsInv(s: State, e: Event)
    requires Enabled(s, e)
    ensures Inv(s) ==> Inv(Step(s, e))
  {
    if Inv(s) {
      StepKeeps(s, e);
    }
  }

  lemma {:induction false} RunKeeps(s: State, events: seq<Event>)
    requires Inv(s) && Run(s, events)
    ensures Inv(After(s, events))
    decreases |events|
  {
    if events != [] {
      StepKeeps(s, events[0]);
      RunKeeps(Step(s, events[0]), events[1..]);
    }
  }

  /** In every run: endpoints are tried in order, each once; the actors never multiply, and before a stop
      none of them is lost; the lines printed are the non-empty lines of the bytes read. */
  lemma EveryRun(events: seq<Event>)
    requires Run(INITIAL, events)
    ensures Actors(After(INITIAL, events)) && InTurn(After(INITIAL, events)) && ReadInOrder(After(INITIAL, events))
  {
    RunKeeps(INITIAL, events);
  }

  /** A deadline that expires while a connect is outstanding gives up its endpoint, whatever that connect
      then reports: the next endpoint is tried, or the client stops. */
  lemma ExpiryMovesOn(s: State, failed: bool)
    requires Inv(s) && !s.stopped && s.ops.connects != []
    ensures Enabled(s, EvDeadline(true)) && Enabled(Step(s, EvDeadline(true)), EvConnect(failed))
    ensures var t := Step(Step(s, EvDeadline(true)), EvConnect(failed));
            var n := |s.log.attempts|;
            && !t.log.connected
            && if n < s.endpoints then !t.stopped && t.log.attempts == s.log.attempts + [n]
               else t.stopped && t.log.attempts == s.log.attempts
  {
    assert s.ops.connects[0] in s.ops.connects;
  }

  /** A connect that fails, or finds its socket closed, gives up its endpoint likewise. */
  lemma FailureMovesOn(s: State, failed: bool)
    requires Inv(s) && !s.stopped && s.ops.connects != [] && (failed || !s.socketOpen)
    ensures var t := Step(s, EvConnect(failed));
            var n := |s.log.attempts|;
            && !t.log.connected
            && if n < s.endpoints then !t.stopped && t.socketOpen && t.log.attempts == s.log.attempts + [n]
               else t.stopped && t.log.attempts == s.log.attempts
  {
    assert s.ops.connects[0] in s.ops.connects;
  }

  /** What stops the client: a call of stop, a failed read or heartbeat, and a connect, or a start, after which
      no endpoint is left. Nothing else does, not even an expired deadline. */
  ghost predicate Stops(s: State, e: Event) {
    match e
    case EvStart(endpoints) => endpoints == 0
    case EvStop => true
    case EvConnect(failed) => (failed || !s.socketOpen) && |s.log.attempts| == s.endpoints
    case EvRead(failed) => failed
    case EvWrite(failed) => failed
    case _ => false
  }

  lemma StopsExactly(s: State, e: Event)
    requires Inv(s) && Enabled(s, e) && !s.stopped
    ensures Step(s, e).stopped <==> Stops(s, e)
    ensures Stops(s, e) ==> !Step(s, e).socketOpen
  {
    assert forall c :: c in s.ops.connects ==> c + 1 == |s.log.attempts|;
    if e.EvConnect? {
      assert s.ops.connects[0] in s.ops.connects;
    }
  }

  /** A connect connects exactly when it succeeds and finds its socket open. Then no further endpoint is tried,
      the socket stays open, and exactly one read and one heartbeat write have begun. */
  lemma ConnectsExactly(s: State, failed: bool)
    requires Inv(s) && !s.stopped && s.ops.connects != []
    ensures var t := Step(s, EvConnect(failed));
            && (t.log.connected <==> !failed && s.socketOpen)
            && (t.log.connected ==>
                  t == s.(ops := Outstanding([], 1, 1, 0, s.ops.waits), log := s.log.(connected := true)))
  {
    assert !s.log.connected;
  }

  /** The deadline actor goes on until a stop; it closes the socket exactly when the deadline has expired. */
  lemma DeadlineExactly(s: State, expired: bool)
    requires Inv(s) && !s.stopped && s.ops.waits > 0
    ensures Step(s, EvDeadline(expired)) == s.(socketOpen := s.socketOpen && !expired)
  {
  }

  /** The heartbeat goes on until a stop: the timer follows the write, and the next write the timer. */
  lemma HeartbeatGoesOn(s: State)
    requires Inv(s) && !s.stopped
    ensures s.ops.writings > 0 ==>
              Step(s, EvWrite(false)) == s.(ops := s.ops.(writings := 0, timers := 1))
    ensures s.ops.timers > 0 ==> Step(s, EvTimer) == s.(ops := s.ops.(writings := 1, timers := 0))
  {
  }

  /** A failed read or heartbeat, and a call of stop, close the socket and start nothing. */
  lemma FailuresStop(s: State)
    requires Inv(s) && !s.stopped
    ensures var t := s.(stopped := true, socketOpen := false);
            && Step(s, EvStop) == t
            && (s.ops.readings > 0 ==> Step(s, EvRead(true)) == t.(ops := s.ops.(readings := 0)))
            && (s.ops.writings > 0 ==> Step(s, EvWrite(true)) == t.(ops := s.ops.(writings := 0)))
  {
    assert s.ops.readings <= 1 && s.ops.writings <= 1;
  }

  /** A start takes over the endpoints, tries the first if there is one and waits for the deadline; no other step
      changes the endpoints. */
  lemma StartTries(s: State, e: Event)
    requires Inv(s) && Enabled(s, e)
    ensures !e.EvStart? ==> Step(s, e).endpoints == s.endpoints
    ensures e.EvStart? ==>
              var t := Step(s, e);
              && t.endpoints == e.endpoints && t.ops.waits == 1
              && t.log.attempts == t.ops.connects == if e.endpoints > 0 then [0] else []
  {
  }

  // ----- what is printed -----

  function Arrived(events: seq<Event>): string {
    if events == [] then []
    else (if events[0].EvArrive? then events[0].bytes else []) + Arrived(events[1..])
  }

  lemma {:induction false} StepHistory(s: State, e: Event)
    requires Enabled(s, e)
    ensures var t := Step(s, e);
            t.log.consumed + t.inputBuffer == s.log.consumed + s.inputBuffer + (if e.EvArrive? then e.bytes else [])
  {
    match e
    case EvArrive(bytes) =>
      assert s.log.consumed + (s.inputBuffer + bytes) == s.log.consumed + s.inputBuffer + bytes;
    case EvRead(failed) =>
      if !failed {
        var n := IndexOf(s.inputBuffer, LF) + 1;
        assert s.log.consumed + s.inputBuffer == s.log.consumed + s.inputBuffer[..n] + s.inputBuffer[n..];
      }
    case _ =>
  }

  lemma {:induction false} RunHistory(s: State, events: seq<Event>)
    requires Run(s, events)
    ensures After(s, events).log.consumed + After(s, events).inputBuffer
            == s.log.consumed + s.inputBuffer + Arrived(events)
    decreases |events|
  {
    if events != [] {
      var e, rest := events[0], events[1..];
      StepHistory(s, e);
      RunHistory(Step(s, e), rest);
      var h := s.log.consumed + s.inputBuffer;
      assert h + (if e.EvArrive? then e.bytes else []) + Arrived(rest) == h + Arrived(events);
    }
  }

  lemma {:induction false} LinesPrefix(a: seq<string>, b: seq<string>)
    ensures Lines(a) <= Lines(a + b)
  {
    if a != [] {
      assert (a + b)[1..] == a[1..] + b;
      LinesPrefix(a[1..], b);
    }
  }

  /** A stream read up to a line end, and the lines still to come. */
  lemma LinesOfPart(consumed: string, rest: string, lines: seq<string>)
    requires forall k :: 0 <= k < |lines| ==> '\n' !in lines[k]
    requires Split(consumed, LF).rest == [] && consumed + rest == Wire(lines)
    ensures Lines(Split(consumed, LF).segments) <= DropEmpty(lines)
    ensures IndexOf(rest, LF) == |rest| ==> Lines(Split(consumed, LF).segments) == DropEmpty(lines) && rest == []
  {
    var got, more := Split(consumed, LF).segments, Split(rest, LF);
    LinesOfWire(lines);
    SplitAppend(consumed, rest, LF);
    assert [] + rest == rest;
    LinesPrefix(got, more.segments);
    if IndexOf(rest, LF) == |rest| {
      assert got + [] == got;
    }
  }

  lemma PrintedSoFar(t: State, rest: string, lines: seq<string>)
    requires forall k :: 0 <= k < |lines| ==> '\n' !in lines[k]
    requires ReadInOrder(t) && t.log.consumed + rest == Wire(lines)
    ensures t.log.printed <= DropEmpty(lines)
    ensures rest == t.inputBuffer && !LineReady(t) ==> t.log.printed == DropEmpty(lines) && t.inputBuffer == []
  {
    LinesOfPart(t.log.consumed, rest, lines);
  }

  lemma AllArrived(events: seq<Event>)
    requires Run(INITIAL, events)
    ensures var t := After(INITIAL, events); t.log.consumed + t.inputBuffer == Arrived(events)
  {
    RunHistory(INITIAL, events);
    assert [] + [] + Arrived(events) == Arrived(events);
  }

  /** Whatever the fragmentation and the interleaving, the lines printed are a prefix of the non-empty lines
      sent, and all of them once every byte is in and read. */
  lemma LinesPrinted(events: seq<Event>, lines: seq<string>, coming: string)
    requires forall k :: 0 <= k < |lines| ==> '\n' !in lines[k]
    requires Run(INITIAL, events) && Arrived(events) + coming == Wire(lines)
    ensures var t := After(INITIAL, events);
            && t.log.printed <= DropEmpty(lines)
            && (coming == [] && !LineReady(t) ==> t.log.printed == DropEmpty(lines) && t.inputBuffer == [])
  {
    EveryRun(events);
    AllArrived(events);
    var t := After(INITIAL, events);
    Regroup(t.log.consumed, t.inputBuffer, coming);
    assert coming == [] ==> t.inputBuffer + coming == t.inputBuffer;
    PrintedSoFar(t, t.inputBuffer + coming, lines);
  }

  // ----- quiescence -----

  /** After a stop a handler starts nothing: it only finishes its own operation, and nothing else changes. */
  lemma {:induction false} StoppedStep(s: State, e: Event)
    requires s.stopped && Enabled(s, e) && IsHandler(e)
    ensures Total(Step(s, e).ops) == Total(s.ops) - 1
    ensures Step(s, e) == s.(ops := Step(s, e).ops)
  {
  }

  /** So the client winds down: after a stop no run of handlers is longer than the number of operations
      outstanding, and when no handler can run any more, none is outstanding. */
  lemma {:induction false} WindsDown(s: State, events: seq<Event>)
    requires s.stopped && Run(s, events) && forall i :: 0 <= i < |events| ==> IsHandler(events[i])
    ensures var t := After(s, events);
            t.stopped && |events| + Total(t.ops) == Total(s.ops)
    decreases |events|
  {
    if events != [] {
      StoppedStep(s, events[0]);
      WindsDown(Step(s, events[0]), events[1..]);
    }
  }

  lemma QuietMeansDone(s: State)
    ensures (forall e :: IsHandler(e) ==> !Enabled(s, e)) <==> Total(s.ops) == 0
  {
    if forall e :: IsHandler(e) ==> !Enabled(s, e) {
      assert !Enabled(s, EvConnect(true)) && !Enabled(s, EvRead(true)) && !Enabled(s, EvWrite(true));
      assert !Enabled(s, EvTimer) && !Enabled(s, EvDeadline(true));
    }
  }
}
