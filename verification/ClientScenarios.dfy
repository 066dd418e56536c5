/** Runs in which the thread-safe client fails to do what its documentation promises. The exact conditions
    under which it does are in ClientKeys, Correlation, Framing and ClientRuns. */
module ClientScenarios {
  import opened Text
  import opened Escape
  import opened Framing
  import opened Helper
  import opened Segments
  import opened ClientModel
  import opened ClientRuns
  import opened Correlation

  ghost predicate Reaches(events: seq<Event>, t: State) {
    Run(INITIAL, events) && After(INITIAL, events) == t
  }

  lemma {:induction false} RunSnoc(s: State, events: seq<Event>, e: Event)
    requires Run(s, events) && Enabled(After(s, events), e)
    ensures Run(s, events + [e]) && After(s, events + [e]) == Step(After(s, events), e)
    decreases |events|
  {
    if events == [] {
      assert events + [e] == [e] && [e][1..] == [];
    } else {
      assert (events + [e])[1..] == events[1..] + [e];
      RunSnoc(Step(s, events[0]), events[1..], e);
    }
  }

  lemma Extend(events: seq<Event>, t: State, e: Event)
    requires Reaches(events, t) && Enabled(t, e)
    ensures Reaches(events + [e], Step(t, e))
  {
    RunSnoc(INITIAL, events, e);
  }

  const CONNECTING := INITIAL.(io := INITIAL_IO.(started := true, connecting := true, socketOpen := true))
  const CONNECTED := INITIAL.(connected := true,
                              io := INITIAL_IO.(started := true, socketOpen := true, reading := true, beats := 1))

  lemma Connects()
    ensures Reaches([EvStart, EvConnectOk], CONNECTED)
  {
    assert Reaches([], INITIAL);
    Extend([], INITIAL, EvStart);
    assert [] + [EvStart] == [EvStart];
    assert Step(INITIAL, EvStart) == CONNECTING;
    Extend([EvStart], CONNECTING, EvConnectOk);
    assert [EvStart] + [EvConnectOk] == [EvStart, EvConnectOk];
    assert Step(CONNECTING, EvConnectOk) == CONNECTED;
  }

  /** The client connected and with one request written. */
  lemma WritesOne(m: string) returns (t: State)
    ensures Reaches([EvStart, EvConnectOk, EvWrite(m)], t) && t == Step(CONNECTED, EvWrite(m))
  {
    Connects();
    Extend([EvStart, EvConnectOk], CONNECTED, EvWrite(m));
    assert [EvStart, EvConnectOk] + [EvWrite(m)] == [EvStart, EvConnectOk, EvWrite(m)];
    t := Step(CONNECTED, EvWrite(m));
  }

  lemma WritesTwo(m: string, n: string) returns (t: State)
    ensures Reaches([EvStart, EvConnectOk, EvWrite(m), EvWrite(n)], t)
    ensures t == Step(Step(CONNECTED, EvWrite(m)), EvWrite(n))
  {
    var s := WritesOne(m);
    Extend([EvStart, EvConnectOk, EvWrite(m)], s, EvWrite(n));
    assert [EvStart, EvConnectOk, EvWrite(m)] + [EvWrite(n)] == [EvStart, EvConnectOk, EvWrite(m), EvWrite(n)];
    t := Step(s, EvWrite(n));
  }

  /** Two trap commands in a row: both are awaited under the empty key, so the promise of the first is
      overwritten, and no reply, nor even a stop, ever gives it a value. */
  lemma SecondTrapOverwrites(m: string, n: string)
    requires IsTrap(m) && IsTrap(n)
    ensures var events := [EvStart, EvConnectOk, EvWrite(m), EvWrite(n)];
            && Run(INITIAL, events) && After(INITIAL, events).log.overwritten == {0}
            && forall more :: Run(After(INITIAL, events), more) ==>
                 0 !in After(After(INITIAL, events), more).log.ledger.values
  {
    var t := WritesTwo(m, n);
    var events := [EvStart, EvConnectOk, EvWrite(m), EvWrite(n)];
    assert Step(CONNECTED, EvWrite(m)).pendingResponses == map["" := 0];
    assert t.log.overwritten == {0};
    RunReaches(events);
    forall more | Run(t, more)
      ensures 0 !in After(t, more).log.ledger.values
    {
      OverwrittenForEver(t, more);
    }
  }

  lemma FirstKeys()
    ensures IdText(WireId(10000)) == "10000" && IdText(WireId(10001)) == "10001"
  {
    assert Decimal(1) == "1" && Decimal(10) == "10" && Decimal(100) == "100" && Decimal(1000) == "1000";
  }

  /** Two requests awaited: after WritesTwo, the keys are those of the first two numbers. */
  lemma TwoAwaited(m: string, n: string)
    requires !IsTrap(m) && !IsTrap(n)
    ensures var t := Step(Step(CONNECTED, EvWrite(m)), EvWrite(n));
            && t.pendingResponses == map["10000" := 0, "10001" := 1]
            && t.io.reading && t.io.socketOpen && !t.io.dead && !t.io.undefined
            && t.inputBuffer == [] && t.log.ledger.values == map[]
  {
    FirstKeys();
    var s := Step(CONNECTED, EvWrite(m));
    assert s.connected && s.pendingResponses == map["10000" := 0];
    assert s.nextId == 10001;
  }

  /** The first request has been given `answer`, the second none. */
  ghost predicate AnsweredWith(t: State, second: string, answer: string) {
    t.log.ledger.values == map[0 := answer] && t.pendingResponses == map[second := 1]
  }

  lemma ErrorRead(s: State, first: string, second: string, reply: string)
    requires first != second && StartsWith(reply, ERROR_PREFIX) && !Occurs(first, reply)
    requires s.inputBuffer == Frame(reply) + []
    requires s.pendingResponses == map[first := 0, second := 1] && s.log.ledger.values == map[]
    ensures IsOrder([first, second], s.pendingResponses) && FrameReady(s)
    ensures AnsweredWith(Read(s, [first, second]), second, reply)
  {
    var order := [first, second];
    assert order[0] == first && order[1] == second;
    ErrorReplyTakesFirst(s, order, reply, []);
  }

  lemma ErrorAfterTwo(events: seq<Event>, s: State, first: string, second: string, reply: string) returns (t: State)
    requires Reaches(events, s) && Enabled(s, EvArrive(Frame(reply))) && s.inputBuffer == []
    requires s.pendingResponses == map[first := 0, second := 1] && s.log.ledger.values == map[]
    requires first != second && StartsWith(reply, ERROR_PREFIX) && !Occurs(first, reply)
    ensures Reaches(events + [EvArrive(Frame(reply))] + [EvRead([first, second])], t)
    ensures AnsweredWith(t, second, reply)
  {
    var arrive := EvArrive(Frame(reply));
    Extend(events, s, arrive);
    var s1 := s.(inputBuffer := Frame(reply));
    assert [] + Frame(reply) == Frame(reply) == Frame(reply) + [];
    ErrorRead(s1, first, second, reply);
    Extend(events + [arrive], s1, EvRead([first, second]));
    t := Step(s1, EvRead([first, second]));
  }

  lemma OtherNumber()
    ensures !Occurs("10000", "E:2 10001")
  {
    var reply, key := "E:2 10001", "10000";
    forall i: nat
      ensures !OccursAt(key, reply, i)
    {
      if i + 5 <= |reply| {
        assert reply[i..i + 5][0] == reply[i] && reply[i..i + 5][4] == reply[i + 4];
        assert reply[i] != '1' || reply[i + 4] != '0';
      }
    }
  }

  /** Two requests outstanding, and the reply that names the second as the one that failed: an iteration
      order hands it, whole, to the first, and the second stays unanswered. */
  lemma ErrorReachesWrongWrite(m: string, n: string) returns (t: State)
    requires !IsTrap(m) && !IsTrap(n)
    ensures Reaches([EvStart, EvConnectOk, EvWrite(m), EvWrite(n)]
                    + [EvArrive(Frame("E:2 10001"))] + [EvRead(["10000", "10001"])], t)
    ensures AnsweredWith(t, "10001", "E:2 10001")
  {
    var s := WritesTwo(m, n);
    TwoAwaited(m, n);
    assert "E:2 10001"[..2] == ERROR_PREFIX;
    assert "10000"[4] != "10001"[4];
    OtherNumber();
    t := ErrorAfterTwo([EvStart, EvConnectOk, EvWrite(m), EvWrite(n)], s, "10000", "10001", "E:2 10001");
  }

  /** LF, ESC, x, CR: a frame with a stray escape byte. */
  const STRAY_ESCAPE := [START, ESC, 'x', STOP]

  lemma StrayEscapeThrows(s: State)
    requires s.inputBuffer == STRAY_ESCAPE
    ensures FrameReady(s) && NextSegment(s) == STRAY_ESCAPE && BreaksEscape(STRAY_ESCAPE)
  {
    IndexOfIsFirst(STRAY_ESCAPE, STOP, 3);
    assert BreaksAt(STRAY_ESCAPE, 1);
  }

  lemma BreakingRead(events: seq<Event>, s: State)
    requires Reaches(events, s) && Enabled(s, EvRead([])) && BreaksEscape(NextSegment(s))
    ensures Reaches(events + [EvRead([])], Step(s, EvRead([]))) && Step(s, EvRead([])).io.dead
  {
    Extend(events, s, EvRead([]));
    ReadDiesExactly(s, []);
  }

  /** One such frame ends the client: its io thread dies, and no handler ever runs again. */
  lemma StrayEscapeKills() returns (t: State)
    ensures Reaches([EvStart, EvConnectOk] + [EvArrive(STRAY_ESCAPE)] + [EvRead([])], t)
    ensures t.io.dead && forall e :: !Enabled(t, e)
  {
    Connects();
    var arrive := EvArrive(STRAY_ESCAPE);
    Extend([EvStart, EvConnectOk], CONNECTED, arrive);
    var s := Step(CONNECTED, arrive);
    StrayEscapeThrows(s);
    BreakingRead([EvStart, EvConnectOk] + [arrive], s);
    t := Step(s, EvRead([]));
  }

  /** A stop that overtakes the completion of a command write: the write's handler pops an empty queue. */
  lemma LateCompletionPopsEmpty(m: string)
    ensures var key := Number(m, FIRST_ID).key;
            var events := [EvStart, EvConnectOk, EvWrite(m), EvCallStop, EvStop([key]), EvWriteOk];
            Run(INITIAL, events) && After(INITIAL, events).io.undefined
  {
    var key := Number(m, FIRST_ID).key;
    var before := [EvStart, EvConnectOk, EvWrite(m)];
    var s1 := WritesOne(m);
    Extend(before, s1, EvCallStop);
    var s2 := Step(s1, EvCallStop);
    assert s2.pendingResponses == map[key := 0] && IsOrder([key], s2.pendingResponses);
    Extend(before + [EvCallStop], s2, EvStop([key]));
    var s3 := Step(s2, EvStop([key]));
    assert s3.writeMsgs == [] && |s3.io.inFlight| == 1;
    Extend(before + [EvCallStop] + [EvStop([key])], s3, EvWriteOk);
    assert before + [EvCallStop] + [EvStop([key])] + [EvWriteOk]
        == [EvStart, EvConnectOk, EvWrite(m), EvCallStop, EvStop([key]), EvWriteOk];
  }
}
