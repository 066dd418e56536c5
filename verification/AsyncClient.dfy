/** The thread-safe client as the class it is: each method is the body of one handler on the strand, and
    carries out exactly one step of ClientModel on the fields. Hash-map iteration orders and the outcomes of
    asynchronous operations are arguments. Every handler keeps the invariant. */
module AsyncClient {
  import opened Text
  import opened Escape
  import opened Framing
  import opened Helper
  import opened Segments
  import opened ClientModel
  import opened ClientInvariants
  import opened ClientSteps

  class AsyncRrcpClient {
    var connected: bool
    var stopped: bool
    var nextMessageId: int
    var pendingWrites: seq<Request>
    var pendingResponses: map<string, Promise>
    var writeMsgs: seq<string>
    var inputBuffer: string
    ghost var io: Io
    ghost var log: Log

    ghost function View(): State
      reads this
    {
      State(connected, stopped, nextMessageId, pendingWrites, pendingResponses, writeMsgs, inputBuffer, io, log)
    }

    constructor ()
      ensures View() == INITIAL && Inv(View())
    {
      InitialInv();
      connected, stopped, nextMessageId := false, false, FIRST_ID;
      pendingWrites, pendingResponses, writeMsgs, inputBuffer := [], map[], [], [];
      io, log := INITIAL_IO, INITIAL_LOG;
    }

    method Start()
      requires Enabled(View(), EvStart)
      modifies this
      ensures View() == ClientModel.Start(old(View()))
      ensures Inv(old(View())) ==> Inv(View())
    {
      StepKeepsInv(View(), EvStart);
      io := io.(started := true, connecting := true, socketOpen := true);
    }

    /** promise->set_value: fulfils the promise, or throws into the caller's empty catch branch. */
    ghost method SetValue(p: Promise, value: string)
      modifies this`log
      ensures log == old(log).(ledger := ClientModel.SetValue(old(log).ledger, p, value))
    {
      if p in log.ledger.values {
        log := log.(ledger := log.ledger.(caught := true));
      } else {
        log := log.(ledger := log.ledger.(values := log.ledger.values[p := value]));
      }
    }

    method DoWrite()
      requires writeMsgs != []
      modifies this`io
      ensures io == old(io).(inFlight := old(io).inFlight + [writeMsgs[0]])
    {
      io := io.(inFlight := io.inFlight + [writeMsgs[0]]);
    }

    method ExecuteWriteRequest(message: string, promise: Promise)
      modifies this
      ensures View() == Execute(old(View()), Request(message, promise))
    {
      var currentId := nextMessageId;
      nextMessageId := Increment(nextMessageId);
      var command, msgIdStr := CreateCommandMsg(message, currentId);
      Enqueue(message, promise, Numbered(msgIdStr, command), currentId);
    }

    /** The second half of execute_write_request: registers the promise and queues the frame. */
    method Enqueue(message: string, promise: Promise, n: Numbered, currentId: int)
      modifies this
      ensures View() == Enlist(old(View()).(nextId := currentId), Request(message, promise), n)
                        .(nextId := old(nextMessageId))
    {
      if n.key in pendingResponses {
        log := log.(overwritten := log.overwritten + {pendingResponses[n.key]});
      }
      pendingResponses := pendingResponses[n.key := promise];
      var writeInProgress := writeMsgs != [];
      writeMsgs := writeMsgs + [n.frame];
      log := log.(executed := log.executed + [Command(Request(message, promise), currentId)]);
      if !writeInProgress {
        DoWrite();
      }
    }

    /** The part of `write` that runs on the strand; `promise` is the one the caller has just made. */
    method Write(message: string, promise: Promise)
      requires Enabled(View(), EvWrite(message)) && promise == |log.submitted|
      modifies this
      ensures View() == ClientModel.Write(old(View()), message)
      ensures Inv(old(View())) ==> Inv(View())
    {
      StepKeepsInv(View(), EvWrite(message));
      log := log.(submitted := log.submitted + [message]);
      if !connected {
        pendingWrites := pendingWrites + [Request(message, promise)];
        return;
      }
      ExecuteWriteRequest(message, promise);
    }

    method NotifyConnectionWaiters()
      modifies this
      ensures View() == Notify(old(View()))
    {
      ghost var ps := Promises(pendingWrites);
      for i := 0 to |pendingWrites|
        invariant connected == old(connected) && pendingWrites == old(pendingWrites)
        invariant connected ==>
                    ExecuteAll(View(), pendingWrites[i..]) == ExecuteAll(old(View()), pendingWrites)
        invariant !connected ==>
                    && View() == old(View()).(log := old(log).(ledger := log.ledger))
                    && SetAll(log.ledger, ps[i..], "") == SetAll(old(log).ledger, ps, "")
      {
        var r := pendingWrites[i];
        if connected {
          ExecuteWriteRequest(r.message, r.promise);
        } else {
          SetValue(r.promise, "");
        }
      }
      pendingWrites := [];
    }

    method OnConnect(failed: bool)
      requires Enabled(View(), if failed then EvConnectFailed else EvConnectOk)
      modifies this
      ensures View() == if failed then ConnectFailed(old(View())) else ConnectOk(old(View()))
      ensures Inv(old(View())) ==> Inv(View())
    {
      StepKeepsInv(View(), if failed then EvConnectFailed else EvConnectOk);
      io := io.(connecting := false);
      if !failed {
        connected := true;
        NotifyConnectionWaiters();
        DoRead();
        SendHeartbeat();
      } else {
        io := io.(connectFailed := true);
        NotifyConnectionWaiters();
      }
    }

    method DoRead()
      modifies this`io
      ensures io == old(io).(reading := true)
    {
      io := io.(reading := true);
    }

    /** The completion handler of a command write. */
    method OnWrite(failed: bool)
      requires Enabled(View(), if failed then EvWriteFailed else EvWriteOk)
      modifies this`io, this`log, this`writeMsgs
      ensures View() == if failed then WriteFailed(old(View())) else WriteOk(old(View()))
      ensures Inv(old(View())) ==> Inv(View())
    {
      StepKeepsInv(View(), if failed then EvWriteFailed else EvWriteOk);
      if !failed {
        NextFrame();
      } else {
        io := io.(inFlight := io.inFlight[1..], writeFailed := true);
        StopClient();
      }
    }

    /** pop_front, and the next do_write. Popping an empty queue has no defined outcome. */
    method NextFrame()
      requires io.inFlight != []
      modifies this`io, this`log, this`writeMsgs
      ensures View() == WriteOk(old(View()))
    {
      FrameSent();
      if writeMsgs == [] {
        io := io.(undefined := true);
      } else {
        writeMsgs := writeMsgs[1..];
        if writeMsgs != [] {
          DoWrite();
        }
      }
      assert io == Written(old(io), old(writeMsgs));
    }

    /** The frame that was handed over is on the wire. */
    ghost method FrameSent()
      requires io.inFlight != []
      modifies this`io, this`log
      ensures io == old(io).(inFlight := old(io).inFlight[1..])
      ensures log == old(log).(sent := old(log).sent + [old(io).inFlight[0]])
    {
      log := log.(sent := log.sent + [io.inFlight[0]]);
      io := io.(inFlight := io.inFlight[1..]);
    }

    method SendHeartbeat()
      modifies this`io
      ensures View() == ClientModel.SendHeartbeat(old(View()))
    {
      if stopped {
        return;
      }
      io := io.(beats := io.beats + 1);
    }

    /** The completion handler of a heartbeat write. */
    method OnHeartbeat(failed: bool)
      requires Enabled(View(), EvHeartbeat(failed))
      modifies this`io
      ensures View() == HeartbeatSent(old(View()), failed)
      ensures Inv(old(View())) ==> Inv(View())
    {
      StepKeepsInv(View(), EvHeartbeat(failed));
      io := io.(beats := io.beats - 1);
      if !failed {
        io := io.(rests := io.rests + 1);
      } else {
        StopClient();
      }
    }

    method OnHeartbeatTimer()
      requires Enabled(View(), EvHeartbeatTimer)
      modifies this`io
      ensures View() == HeartbeatTimer(old(View()))
      ensures Inv(old(View())) ==> Inv(View())
    {
      StepKeepsInv(View(), EvHeartbeatTimer);
      io := io.(rests := io.rests - 1);
      SendHeartbeat();
    }

    /** stop(): posts the disconnection unless it has already been carried out. */
    method StopClient()
      modifies this`io
      ensures View() == CallStop(old(View()))
      ensures Inv(old(View())) ==> Inv(View())
    {
      if Inv(View()) {
        CallStopKeeps(View());
      }
      if stopped {
        return;
      }
      io := io.(stopCalls := io.stopCalls + 1);
    }

    method ClearPendingOperations(order: seq<string>)
      requires IsOrder(order, pendingResponses)
      modifies this
      ensures View() == ClearPending(old(View()), order)
    {
      ghost var ps := Lookup(order, pendingResponses);
      for i := 0 to |order|
        invariant View() == old(View()).(log := old(log).(ledger := log.ledger))
        invariant SetAll(log.ledger, ps[i..], "") == SetAll(old(log).ledger, ps, "")
      {
        SetValue(pendingResponses[order[i]], "");
      }
      pendingResponses := map[];

      ghost var l := log.ledger;
      ghost var qs := Promises(pendingWrites);
      for i := 0 to |pendingWrites|
        invariant View() == old(View()).(pendingResponses := map[], log := old(log).(ledger := log.ledger))
        invariant SetAll(log.ledger, qs[i..], "") == SetAll(l, qs, "")
      {
        SetValue(pendingWrites[i].promise, "");
      }
      pendingWrites := [];

      writeMsgs := [];
    }

    /** The handler that stop() posts. */
    method OnStop(order: seq<string>)
      requires Enabled(View(), EvStop(order))
      modifies this
      ensures View() == Stop(old(View()), order)
      ensures Inv(old(View())) ==> Inv(View())
    {
      StepKeepsInv(View(), EvStop(order));
      io := io.(stopCalls := io.stopCalls - 1);
      stopped := true;
      connected := false;
      io := io.(socketOpen := false);
      ClearPendingOperations(order);
      NotifyConnectionWaiters();
    }

    method OnArrive(bytes: string)
      requires Enabled(View(), EvArrive(bytes))
      modifies this
      ensures View() == old(View()).(inputBuffer := old(inputBuffer) + bytes)
      ensures Inv(old(View())) ==> Inv(View())
    {
      StepKeepsInv(View(), EvArrive(bytes));
      inputBuffer := inputBuffer + bytes;
    }

    method HandleResponse(response: string, order: seq<string>)
      requires IsOrder(order, pendingResponses)
      modifies this`log, this`pendingResponses
      ensures View() == ClientModel.HandleResponse(old(View()), response, order)
    {
      FirstMatchIsKey(response, order);
      for i := 0 to |order|
        invariant View() == old(View())
        invariant FirstMatch(response, order) == FirstMatch(response, order[i..])
      {
        var found, cleanResponse := FindResponseMsg(response, order[i]);
        if found {
          var promise := pendingResponses[order[i]];
          pendingResponses := pendingResponses - {order[i]};
          SetValue(promise, cleanResponse);
          return;
        }
      }
    }

    /** The read handler: `length` bytes end in the first STOP of the buffer. */
    method OnRead(order: seq<string>)
      requires Enabled(View(), EvRead(order))
      modifies this
      ensures View() == Read(old(View()), order)
      ensures Inv(old(View())) ==> Inv(View())
    {
      StepKeepsInv(View(), EvRead(order));
      var length := IndexOf(inputBuffer, STOP) + 1;
      var parsed := ParseRrcpMessage(inputBuffer, length);
      OnParsed(length, parsed, order);
    }

    /** The read handler once the segment has been parsed. Starting the next read first makes no difference:
        its handler runs on a later turn of the strand. */
    method OnParsed(length: nat, parsed: Parsed, order: seq<string>)
      requires io.reading && IsOrder(order, pendingResponses) && length <= |inputBuffer|
      modifies this`io, this`log, this`inputBuffer, this`pendingResponses
      ensures View() == Consume(old(View()), length, parsed, order)
    {
      if parsed.Thrown? {
        io := io.(reading := false, dead := true);
        return;
      }
      ReadOn(length);
      if parsed.Line? && parsed.text != [] {
        OnLine(parsed.text, order);
      }
    }

    /** Takes the segment off the buffer and begins the next read. */
    method ReadOn(length: nat)
      requires io.reading && length <= |inputBuffer|
      modifies this`io, this`log, this`inputBuffer
      ensures View() == old(View()).(inputBuffer := old(inputBuffer)[length..],
                                     log := old(log).(consumed := old(log).consumed + old(inputBuffer)[..length]))
    {
      log := log.(consumed := log.consumed + inputBuffer[..length]);
      inputBuffer := inputBuffer[length..];
      DoRead();
      assert io == old(io);
    }

    /** Trap data goes to the trap handler, ping replies are dropped, the rest are responses. */
    method OnLine(line: string, order: seq<string>)
      requires IsOrder(order, pendingResponses)
      modifies this`log, this`pendingResponses
      ensures View() == Deliver(old(View()), line, order)
    {
      log := log.(lines := log.lines + [line]);
      if StartsWith(line, "d") {
        log := log.(traps := log.traps + [line]);
      } else if !StartsWith(line, "gPing") {
        HandleResponse(line, order);
      }
    }

    method OnReadFailed()
      requires Enabled(View(), EvReadFailed)
      modifies this
      ensures View() == ReadFailed(old(View()))
      ensures Inv(old(View())) ==> Inv(View())
    {
      StepKeepsInv(View(), EvReadFailed);
      io := io.(reading := false);
      StopClient();
    }
  }
}
