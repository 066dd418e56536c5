/** The thread-safe RRCP client as a state machine. All its state lives behind one strand, so every handler
    is one atomic step; the class in AsyncClient.dfy carries out exactly these steps. */
module ClientModel {
  import opened Text
  import opened Escape
  import opened Framing
  import opened Helper
  import opened Segments

  /** Promises are numbered in the order of the `write` calls that made them. */
  type Promise = nat

  datatype Request = Request(message: string, promise: Promise)

  /** A request that has been given an id and put on the write queue. */
  datatype Command = Command(request: Request, id: int)

  /** The promises' shared states: a promise takes one value; a second set_value throws, and the handlers
      swallow that in a catch branch, which `caught` records. */
  datatype Ledger = Ledger(values: map<Promise, string>, caught: bool)

  /** What asio and the socket are doing. `inFlight` holds the frames handed to command writes that have not
      completed, `beats` and `rests` count the heartbeat writes and heartbeat timers outstanding. A handler
      that throws ends the io thread: then `dead` is set. One that pops an empty queue has no defined
      outcome: then `undefined` is set, and the run ends. */
  datatype Io = Io(
    started: bool,
    connecting: bool,
    connectFailed: bool,
    socketOpen: bool,
    reading: bool,
    inFlight: seq<string>,
    writeFailed: bool,
    beats: nat,
    rests: nat,
    stopCalls: nat,
    dead: bool,
    undefined: bool)

  /** What has happened so far: every message submitted, command executed, frame completed on the socket,
      byte consumed by reads, line handed on; the promises' values, and the promises that lost their key
      to a later command. */
  datatype Log = Log(
    submitted: seq<string>,
    executed: seq<Command>,
    sent: seq<string>,
    consumed: string,
    lines: seq<string>,
    traps: seq<string>,
    ledger: Ledger,
    overwritten: set<Promise>)

  datatype State = State(
    connected: bool,
    stopped: bool,
    nextId: int,
    pendingWrites: seq<Request>,
    pendingResponses: map<string, Promise>,
    writeMsgs: seq<string>,
    inputBuffer: string,
    io: Io,
    log: Log)

  const INITIAL_IO := Io(false, false, false, false, false, [], false, 0, 0, 0, false, false)
  const INITIAL_LOG := Log([], [], [], [], [], [], Ledger(map[], false), {})
  const INITIAL := State(false, false, FIRST_ID, [], map[], [], [], INITIAL_IO, INITIAL_LOG)

  // ----- promises -----

  function SetValue(l: Ledger, p: Promise, value: string): Ledger {
    if p in l.values then l.(caught := true) else l.(values := l.values[p := value])
  }

  function SetAll(l: Ledger, ps: seq<Promise>, value: string): Ledger
    decreases |ps|
  {
    if ps == [] then l else SetAll(SetValue(l, ps[0], value), ps[1..], value)
  }

  function Promises(requests: seq<Request>): seq<Promise> {
    seq(|requests|, i requires 0 <= i < |requests| => requests[i].promise)
  }

  /** An iteration order of the hash map: every key once. */
  ghost predicate IsOrder(order: seq<string>, m: map<string, Promise>) {
    && (forall i :: 0 <= i < |order| ==> order[i] in m)
    && (forall k :: k in m ==> k in order)
    && (forall i, j :: 0 <= i < j < |order| ==> order[i] != order[j])
  }

  function Lookup(order: seq<string>, m: map<string, Promise>): seq<Promise>
    requires forall i :: 0 <= i < |order| ==> order[i] in m
  {
    seq(|order|, i requires 0 <= i < |order| => m[order[i]])
  }

  // ----- sending -----

  /** fetch_add(1) on a 32-bit atomic int. */
  function Increment(id: int): int {
    if id == 0x7FFF_FFFF then -0x8000_0000 else id + 1
  }

  /** Puts a numbered request on the write queue; an idle queue starts a write. A key that is already
      awaited loses its promise. */
  function Enlist(s: State, r: Request, n: Numbered): State {
    var lost := if n.key in s.pendingResponses then {s.pendingResponses[n.key]} else {};
    s.(nextId := Increment(s.nextId),
       pendingResponses := s.pendingResponses[n.key := r.promise],
       writeMsgs := s.writeMsgs + [n.frame],
       io := if s.writeMsgs == [] then s.io.(inFlight := s.io.inFlight + [n.frame]) else s.io,
       log := s.log.(overwritten := s.log.overwritten + lost, executed := s.log.executed + [Command(r, s.nextId)]))
  }

  function Execute(s: State, r: Request): State {
    Enlist(s, r, Number(r.message, s.nextId))
  }

  function ExecuteAll(s: State, requests: seq<Request>): State
    decreases |requests|
  {
    if requests == [] then s else ExecuteAll(Execute(s, requests[0]), requests[1..])
  }

  /** The posted part of `write`; `message` gets the next promise. */
  function Write(s: State, message: string): State {
    var r := Request(message, |s.log.submitted|);
    var s1 := s.(log := s.log.(submitted := s.log.submitted + [message]));
    if !s.connected then s1.(pendingWrites := s1.pendingWrites + [r]) else Execute(s1, r)
  }

  function Notify(s: State): State {
    var s1 := if s.connected then ExecuteAll(s, s.pendingWrites)
              else s.(log := s.log.(ledger := SetAll(s.log.ledger, Promises(s.pendingWrites), "")));
    s1.(pendingWrites := [])
  }

  function CallStop(s: State): State {
    s.(io := s.io.(stopCalls := s.io.stopCalls + if s.stopped then 0 else 1))
  }

  /** A command write has completed: the handler takes the head off the queue, whatever it is, and hands over the
      next frame. */
  function Written(io: Io, queue: seq<string>): (r: Io)
    requires io.inFlight != []
    ensures r == io.(inFlight := r.inFlight, undefined := r.undefined)
  {
    var done := io.(inFlight := io.inFlight[1..]);
    if queue == [] then done.(undefined := true)
    else if |queue| == 1 then done
    else done.(inFlight := done.inFlight + [queue[1]])
  }

  /** A command write has completed: its frame is on the wire. */
  function WriteOk(s: State): State
    requires s.io.inFlight != []
  {
    s.(writeMsgs := if s.writeMsgs == [] then [] else s.writeMsgs[1..],
       io := Written(s.io, s.writeMsgs),
       log := s.log.(sent := s.log.sent + [s.io.inFlight[0]]))
  }

  function WriteFailed(s: State): State
    requires s.io.inFlight != []
  {
    CallStop(s.(io := s.io.(inFlight := s.io.inFlight[1..], writeFailed := true)))
  }

  // ----- the heartbeat -----

  function SendHeartbeat(s: State): State {
    s.(io := s.io.(beats := s.io.beats + if s.stopped then 0 else 1))
  }

  function HeartbeatSent(s: State, failed: bool): State
    requires s.io.beats > 0
  {
    var io := s.io.(beats := s.io.beats - 1);
    if failed then CallStop(s.(io := io)) else s.(io := io.(rests := io.rests + 1))
  }

  function HeartbeatTimer(s: State): State
    requires s.io.rests > 0
  {
    SendHeartbeat(s.(io := s.io.(rests := s.io.rests - 1)))
  }

  // ----- connecting and stopping -----

  function Start(s: State): State {
    s.(io := s.io.(started := true, connecting := true, socketOpen := true))
  }

  function ConnectOk(s: State): State {
    var s1 := Notify(s.(connected := true, io := s.io.(connecting := false)));
    SendHeartbeat(s1.(io := s1.io.(reading := true)))
  }

  function ConnectFailed(s: State): State {
    Notify(s.(io := s.io.(connecting := false, connectFailed := true)))
  }

  function ClearPending(s: State, order: seq<string>): State
    requires IsOrder(order, s.pendingResponses)
  {
    var l := SetAll(s.log.ledger, Lookup(order, s.pendingResponses), "");
    s.(pendingResponses := map[], pendingWrites := [], writeMsgs := [],
       log := s.log.(ledger := SetAll(l, Promises(s.pendingWrites), "")))
  }

  function Stop(s: State, order: seq<string>): State
    requires IsOrder(order, s.pendingResponses) && s.io.stopCalls > 0
  {
    var s1 := s.(stopped := true, connected := false,
                 io := s.io.(socketOpen := false, stopCalls := s.io.stopCalls - 1));
    Notify(ClearPending(s1, order))
  }

  // ----- receiving -----

  /** The first key, in iteration order, that the response answers. */
  function FirstMatch(response: string, order: seq<string>): (k: Option<string>) {
    if order == [] then None
    else if Matched(response, order[0]).Some? then Some(order[0])
    else FirstMatch(response, order[1..])
  }

  function HandleResponse(s: State, response: string, order: seq<string>): State
    requires IsOrder(order, s.pendingResponses)
  {
    FirstMatchIsKey(response, order);
    match FirstMatch(response, order)
    case None => s
    case Some(k) =>
      s.(pendingResponses := s.pendingResponses - {k},
         log := s.log.(ledger := SetValue(s.log.ledger, s.pendingResponses[k], Matched(response, k).value)))
  }

  lemma FirstMatchIsKey(response: string, order: seq<string>)
    ensures FirstMatch(response, order).Some? ==>
              && FirstMatch(response, order).value in order
              && Matched(response, FirstMatch(response, order).value).Some?
  {
  }

  function Dispatch(s: State, line: string, order: seq<string>): State
    requires IsOrder(order, s.pendingResponses)
  {
    if StartsWith(line, "d") then s.(log := s.log.(traps := s.log.traps + [line]))
    else if StartsWith(line, "gPing") then s
    else HandleResponse(s, line, order)
  }

  function Deliver(s: State, line: string, order: seq<string>): State
    requires IsOrder(order, s.pendingResponses)
  {
    Dispatch(s.(log := s.log.(lines := s.log.lines + [line])), line, order)
  }

  predicate FrameReady(s: State) {
    IndexOf(s.inputBuffer, STOP) < |s.inputBuffer|
  }

  /** The bytes up to the first STOP, which the next read takes. */
  function NextSegment(s: State): string
    requires FrameReady(s)
  {
    s.inputBuffer[..IndexOf(s.inputBuffer, STOP) + 1]
  }

  /** What the read handler does with the first n bytes of the buffer once they have been parsed. */
  function Consume(s: State, n: nat, parsed: Parsed, order: seq<string>): State
    requires IsOrder(order, s.pendingResponses) && n <= |s.inputBuffer|
  {
    var rest := s.(inputBuffer := s.inputBuffer[n..], log := s.log.(consumed := s.log.consumed + s.inputBuffer[..n]));
    match parsed
    case Thrown(_) => s.(io := s.io.(reading := false, dead := true))
    case Malformed => rest
    case Line(line) =>
      if line == [] then rest
      else Deliver(rest, line, order)
  }

  function Read(s: State, order: seq<string>): State
    requires IsOrder(order, s.pendingResponses) && FrameReady(s)
  {
    Consume(s, |NextSegment(s)|, ParseSegment(NextSegment(s)), order)
  }

  function ReadFailed(s: State): State {
    CallStop(s.(io := s.io.(reading := false)))
  }

  // ----- runs -----

  /** One turn of the strand. `order` is the iteration order the hash map happens to have; EvCallStop is
      any call of stop() from outside the strand, or by an expired deadline. */
  datatype Event =
    | EvStart
    | EvWrite(message: string)
    | EvConnectOk
    | EvConnectFailed
    | EvWriteOk
    | EvWriteFailed
    | EvHeartbeat(failed: bool)
    | EvHeartbeatTimer
    | EvArrive(bytes: string)
    | EvRead(order: seq<string>)
    | EvReadFailed
    | EvCallStop
    | EvStop(order: seq<string>)

  ghost predicate Enabled(s: State, e: Event) {
    && !s.io.dead && !s.io.undefined
    && match e
       case EvStart => !s.io.started && !s.stopped
       case EvWrite(_) => true
       case EvConnectOk => s.io.connecting && s.io.socketOpen
       case EvConnectFailed => s.io.connecting
       case EvWriteOk => s.io.inFlight != []
       case EvWriteFailed => s.io.inFlight != []
       case EvHeartbeat(_) => s.io.beats > 0
       case EvHeartbeatTimer => s.io.rests > 0
       case EvArrive(_) => s.io.reading && s.io.socketOpen
       case EvRead(order) => s.io.reading && FrameReady(s) && IsOrder(order, s.pendingResponses)
       case EvReadFailed => s.io.reading
       case EvCallStop => true
       case EvStop(order) => s.io.stopCalls > 0 && IsOrder(order, s.pendingResponses)
  }

  ghost function Step(s: State, e: Event): State
    requires Enabled(s, e)
  {
    match e
    case EvStart => Start(s)
    case EvWrite(message) => Write(s, message)
    case EvConnectOk => ConnectOk(s)
    case EvConnectFailed => ConnectFailed(s)
    case EvWriteOk => WriteOk(s)
    case EvWriteFailed => WriteFailed(s)
    case EvHeartbeat(failed) => HeartbeatSent(s, failed)
    case EvHeartbeatTimer => HeartbeatTimer(s)
    case EvArrive(bytes) => s.(inputBuffer := s.inputBuffer + bytes)
    case EvRead(order) => Read(s, order)
    case EvReadFailed => ReadFailed(s)
    case EvCallStop => CallStop(s)
    case EvStop(order) => Stop(s, order)
  }

  /** The events can happen in this order from `s`. */
  ghost predicate Run(s: State, events: seq<Event>)
    decreases |events|
  {
    events == [] || (Enabled(s, events[0]) && Run(Step(s, events[0]), events[1..]))
  }

  ghost function After(s: State, events: seq<Event>): State
    requires Run(s, events)
    decreases |events|
  {
    if events == [] then s else After(Step(s, events[0]), events[1..])
  }
}
