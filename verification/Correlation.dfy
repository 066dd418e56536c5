/** Which `write` a reply answers. The client tries the awaited keys in the order of a hash map and takes
    the first that matches, so a reply is safe only if the order cannot matter. */
module Correlation {
  import opened Text
  import opened Escape
  import opened Framing
  import opened Helper
  import opened Segments
  import opened ClientModel
  import opened ClientInvariants
  import opened ClientSteps
  import opened ClientRuns
  import opened ClientKeys

  lemma {:induction false} FirstMatchIsFirst(response: string, order: seq<string>, i: nat)
    requires i < |order| && Matched(response, order[i]).Some?
    requires forall j :: 0 <= j < i ==> Matched(response, order[j]).None?
    ensures FirstMatch(response, order) == Some(order[i])
  {
    if i > 0 {
      FirstMatchIsFirst(response, order[1..], i - 1);
    }
  }

  lemma {:induction false} KeyOrder(keys: set<string>) returns (order: seq<string>)
    ensures forall k :: k in order <==> k in keys
    ensures forall i, j :: 0 <= i < j < |order| ==> order[i] != order[j]
  {
    if keys == {} {
      order := [];
    } else {
      var k :| k in keys;
      var rest := KeyOrder(keys - {k});
      assert k !in rest;
      order := [k] + rest;
    }
  }

  lemma OrderStartingWith(m: map<string, Promise>, first: string) returns (order: seq<string>)
    requires first in m
    ensures IsOrder(order, m) && order[0] == first
  {
    var rest := KeyOrder(m.Keys - {first});
    order := [first] + rest;
    assert first !in rest;
    assert forall i :: 0 <= i < |rest| ==> rest[i] in rest;
  }

  /** A key gets a response under every iteration order exactly when it is awaited, matches, and no other
      awaited key matches. */
  lemma OnlyMatchWins(response: string, m: map<string, Promise>, key: string)
    ensures (forall order :: IsOrder(order, m) ==> FirstMatch(response, order) == Some(key))
            <==> key in m && forall k :: k in m ==> (Matched(response, k).Some? <==> k == key)
  {
    if key in m && forall k :: k in m ==> (Matched(response, k).Some? <==> k == key) {
      forall order | IsOrder(order, m)
        ensures FirstMatch(response, order) == Some(key)
      {
        var i :| 0 <= i < |order| && order[i] == key;
        FirstMatchIsFirst(response, order, i);
      }
    } else if m == map[] {
      assert IsOrder([], m) && FirstMatch(response, []) == None;
    } else {
      var k := if key in m then
                 if Matched(response, key).None? then key
                 else var k :| k in m && !(Matched(response, k).Some? <==> k == key); k
               else var k :| k in m; k;
      var order := OrderStartingWith(m, k);
      FirstMatchIsKey(response, order);
      if Matched(response, k).Some? {
        FirstMatchIsFirst(response, order, 0);
      }
    }
  }

  /** The same in what a caller can see: an error reply reaches its request for certain only if no other is
      awaited; any other reply only if its key occurs in it and no other awaited key does. */
  lemma SafeReplyExactly(response: string, m: map<string, Promise>, key: string)
    ensures (forall order :: IsOrder(order, m) ==> FirstMatch(response, order) == Some(key))
            <==> if StartsWith(response, ERROR_PREFIX) then m.Keys == {key}
                 else key in m && forall k :: k in m ==> (Occurs(k, response) <==> k == key)
  {
    OnlyMatchWins(response, m, key);
    forall k | k in m
      ensures Matched(response, k).Some? <==> Occurs(k, response) || StartsWith(response, ERROR_PREFIX)
    {
      MatchedExactly(response, k);
    }
  }

  /** An awaited trap can take any reply: there is an iteration order that hands it over, whatever it says. */
  lemma TrapTakesAnything(response: string, m: map<string, Promise>) returns (order: seq<string>)
    requires "" in m
    ensures IsOrder(order, m) && FirstMatch(response, order) == Some("")
  {
    order := OrderStartingWith(m, "");
    MatchedExactly(response, "");
    FirstMatchIsFirst(response, order, 0);
  }

  // ----- what a read does -----

  /** Which awaited keys a line answers. */
  ghost predicate Answers(line: string, key: string) {
    Occurs(key, line) || "E:" <= line
  }

  /** The next segment taken off the buffer, a line in it recorded, and everything else as it was. */
  function Passed(s: State, lines: seq<string>, traps: seq<string>): State
    requires FrameReady(s)
  {
    var n := IndexOf(s.inputBuffer, '\r') + 1;
    s.(inputBuffer := s.inputBuffer[n..],
       log := s.log.(consumed := s.log.consumed + s.inputBuffer[..n], lines := s.log.lines + lines,
                     traps := s.log.traps + traps))
  }

  /** A segment without START, or too short, is dropped; one that breaks an escape stays in the buffer and ends
      the reading. */
  lemma SegmentDropped(s: State, order: seq<string>)
    requires IsOrder(order, s.pendingResponses) && FrameReady(s)
    ensures |NextSegment(s)| < 3 || NextSegment(s)[0] != '\n' ==> Read(s, order) == Passed(s, [], [])
    ensures BreaksEscape(NextSegment(s)) ==> Read(s, order) == s.(io := s.io.(reading := false, dead := true))
  {
    ReadIsTakeAndAnswer(s, order);
    NextSegmentIs(s);
    SegmentThrowsExactly(NextSegment(s));
  }

  /** Trap data goes to the trap handler, ping replies go nowhere, and a line that answers no awaited key changes
      nothing either. */
  lemma LinePasses(s: State, order: seq<string>, line: string)
    requires IsOrder(order, s.pendingResponses) && FrameReady(s) && ParseSegment(NextSegment(s)) == Line(line)
    ensures "d" <= line ==> Read(s, order) == Passed(s, [line], [line])
    ensures "gPing" <= line ==> Read(s, order) == Passed(s, [line], [])
    ensures !("d" <= line) && (forall k :: k in s.pendingResponses ==> !Answers(line, k)) ==>
              Read(s, order) == Passed(s, [line], [])
  {
    ReadIsTakeAndAnswer(s, order);
    NextSegmentIs(s);
    assert "gPing" <= line ==> line[0] == 'g';
    if forall k :: k in s.pendingResponses ==> !Answers(line, k) {
      NoneMatches(line, order);
    }
  }

  lemma {:induction false} NoneMatches(line: string, order: seq<string>)
    requires forall i :: 0 <= i < |order| ==> !Answers(line, order[i])
    ensures FirstMatch(line, order) == None
  {
    if order != [] {
      MatchedExactly(line, order[0]);
      NoneMatches(line, order[1..]);
    }
  }

  lemma FirstAnswerMatches(line: string, order: seq<string>, i: nat)
    requires i < |order| && Answers(line, order[i]) && forall j :: 0 <= j < i ==> !Answers(line, order[j])
    ensures Matched(line, order[i]).Some? && FirstMatch(line, order) == Some(order[i])
  {
    forall j | 0 <= j <= i
      ensures Matched(line, order[j]).Some? <==> j == i
    {
      MatchedExactly(line, order[j]);
    }
    FirstMatchIsFirst(line, order, i);
  }

  /** Any other line goes to the first key, in the order of the map, that it answers: its promise gets the text
      that MatchedText describes, the key is awaited no more, and nothing else changes. */
  lemma LineAnswersFirst(s: State, order: seq<string>, line: string, i: nat)
    requires Inv(s) && IsOrder(order, s.pendingResponses)
    requires FrameReady(s) && ParseSegment(NextSegment(s)) == Line(line)
    requires !("d" <= line) && !("gPing" <= line)
    requires i < |order| && Answers(line, order[i]) && forall j :: 0 <= j < i ==> !Answers(line, order[j])
    ensures Matched(line, order[i]).Some?
    ensures var p := s.pendingResponses[order[i]];
            var t := Passed(s, [line], []);
            Read(s, order) == t.(pendingResponses := s.pendingResponses - {order[i]},
                                 log := t.log.(ledger := s.log.ledger.(values :=
                                   s.log.ledger.values[p := Matched(line, order[i]).value])))
  {
    FirstAnswerMatches(line, order, i);
    ReadIsTakeAndAnswer(s, order);
    assert s.pendingResponses[order[i]] in s.pendingResponses.Values;
  }

  lemma {:induction false} FirstAnswered(line: string, order: seq<string>) returns (i: nat)
    ensures i <= |order| && (i < |order| ==> Answers(line, order[i]))
    ensures forall j :: 0 <= j < i ==> !Answers(line, order[j])
  {
    i := 0;
    while i < |order| && !Answers(line, order[i])
      invariant i <= |order| && forall j :: 0 <= j < i ==> !Answers(line, order[j])
    {
      i := i + 1;
    }
  }

  /** When a reply changes anything: the awaited keys, and the promises, change exactly when an awaited key occurs
      in it, or it is an error reply and a key is awaited at all. */
  lemma ReplyChangesExactly(s: State, order: seq<string>, reply: string, tail: string)
    requires Inv(s) && IsOrder(order, s.pendingResponses) && s.inputBuffer == Frame(reply) + tail
    requires reply != [] && !("d" <= reply) && !("gPing" <= reply)
    ensures FrameReady(s)
    ensures var t := Read(s, order);
            var answers := exists k :: k in s.pendingResponses && Answers(reply, k);
            && (t.pendingResponses != s.pendingResponses <==> answers)
            && (t.log.ledger != s.log.ledger <==> answers)
            && (!answers ==> t == Passed(s, [reply], []) && t.inputBuffer == tail)
  {
    ReadsReply(s, reply, tail);
    var i := FirstAnswered(reply, order);
    if i < |order| {
      LineAnswersFirst(s, order, reply, i);
      assert s.pendingResponses[order[i]] in s.pendingResponses.Values;
      assert order[i] in s.pendingResponses && Answers(reply, order[i]);
    } else {
      LinePasses(s, order, reply);
    }
  }

  /** The state after the reply `reply` has been read off the front of the buffer for `key`. */
  function AnsweredState(s: State, key: string, reply: string, tail: string, value: string): State
    requires key in s.pendingResponses
  {
    var p := s.pendingResponses[key];
    s.(inputBuffer := tail,
       pendingResponses := s.pendingResponses - {key},
       log := s.log.(consumed := s.log.consumed + Frame(reply), lines := s.log.lines + [reply],
                     ledger := s.log.ledger.(values := s.log.ledger.values[p := value])))
  }

  lemma ReadsReply(s: State, reply: string, tail: string)
    requires reply != [] && s.inputBuffer == Frame(reply) + tail
    ensures FrameReady(s) && IndexOf(s.inputBuffer, STOP) + 1 == |Frame(reply)|
    ensures s.inputBuffer[..|Frame(reply)|] == Frame(reply) && s.inputBuffer[|Frame(reply)|..] == tail
    ensures ParseSegment(s.inputBuffer[..|Frame(reply)|]) == Line(reply)
  {
    FrameIsSegment([], reply);
    assert [] + Frame(reply) == Frame(reply);
    IndexOfIsFirst(s.inputBuffer, STOP, |Frame(reply)| - 1);
    FrameParses(reply);
  }

  /** An error reply goes to the key that comes first in the order of the map, whichever request it names. */
  lemma ErrorReplyTakesFirst(s: State, order: seq<string>, reply: string, tail: string)
    requires IsOrder(order, s.pendingResponses) && order != []
    requires StartsWith(reply, ERROR_PREFIX) && s.inputBuffer == Frame(reply) + tail
    ensures FrameReady(s) && Matched(reply, order[0]).Some?
    ensures var t := Read(s, order);
            && t.pendingResponses == s.pendingResponses - {order[0]}
            && t.log.ledger
               == SetValue(s.log.ledger, s.pendingResponses[order[0]], Matched(reply, order[0]).value)
    ensures !Occurs(order[0], reply) ==>
              Read(s, order).log.ledger == SetValue(s.log.ledger, s.pendingResponses[order[0]], reply)
  {
    ReadsReply(s, reply, tail);
    MatchedText(reply, order[0], 0);
    ReadIsTakeAndAnswer(s, order);
    MatchedExactly(reply, order[0]);
    FirstMatchIsFirst(reply, order, 0);
    assert reply[0] == ERROR_PREFIX[0] == 'E';
    assert !StartsWith(reply, "d") && !StartsWith(reply, "gPing");
  }

  /** The first byte rules out trap data, ping replies and error replies. */
  predicate Plain(reply: string) {
    reply != [] && (reply[0] == ' ' || reply[0] == '-' || IsDigit(reply[0]))
  }

  lemma IdTextShape(id: int)
    ensures var s := IdText(id);
            s != [] && IsDigit(s[|s| - 1]) && (s[0] == '-' || IsDigit(s[0]))
  {
    DecimalDigits(if id < 0 then -id else id);
  }

  /** An awaited key is empty, or the text of a number. */
  lemma AwaitedKeyText(s: State, key: string)
    requires KeysBelong(s) && key in s.pendingResponses && key != []
    ensures IsDigit(key[|key| - 1]) && (key[0] == '-' || IsDigit(key[0]))
  {
    var command := s.log.executed[s.pendingResponses[key]];
    assert key == IdText(WireId(command.id));
    IdTextShape(WireId(command.id));
  }

  lemma AwaitedReplyPlain(s: State, key: string, payload: string)
    requires KeysBelong(s) && key in s.pendingResponses
    ensures Plain(key + " " + payload)
  {
    var reply := key + " " + payload;
    if key == [] {
      assert reply[0] == ' ';
    } else {
      AwaitedKeyText(s, key);
      assert reply[0] == key[0];
    }
  }

  lemma OtherKeyMisses(reply: string, k: string)
    requires Plain(reply) && !Occurs(k, reply)
    ensures Matched(reply, k).None?
  {
    MatchedExactly(reply, k);
    assert !StartsWith(reply, ERROR_PREFIX);
  }

  lemma NumberedReplyMatches(key: string, payload: string, m: map<string, Promise>)
    requires key in m && Plain(key + " " + payload)
    requires forall k :: k in m && k != key ==> !Occurs(k, key + " " + payload)
    ensures forall k :: k in m ==> (Matched(key + " " + payload, k).Some? <==> k == key)
    ensures Matched(key + " " + payload, key) == Some(TrimLeft(payload))
  {
    var reply := key + " " + payload;
    MatchedReply(key, payload);
    forall k | k in m && k != key
      ensures Matched(reply, k).None?
    {
      OtherKeyMisses(reply, k);
    }
  }

  /** A numbered reply in which no other awaited key occurs is given, without its number and leading
      blanks, to exactly the promise awaited under that number, whatever the iteration order; everything
      else stays as it was. */
  lemma ReplyCorrelates(s: State, order: seq<string>, key: string, payload: string, tail: string)
    requires Inv(s) && IsOrder(order, s.pendingResponses)
    requires s.inputBuffer == Frame(key + " " + payload) + tail
    requires key in s.pendingResponses
    requires forall k :: k in s.pendingResponses && k != key ==> !Occurs(k, key + " " + payload)
    ensures FrameReady(s)
    ensures Read(s, order) == AnsweredState(s, key, key + " " + payload, tail, TrimLeft(payload))
  {
    var reply := key + " " + payload;
    ReadsReply(s, reply, tail);
    ReadIsTakeAndAnswer(s, order);
    AwaitedReplyPlain(s, key, payload);
    NumberedReplyMatches(key, payload, s.pendingResponses);
    OnlyMatchWins(reply, s.pendingResponses, key);
    assert FirstMatch(reply, order) == Some(key);
    assert !StartsWith(reply, "d") && !StartsWith(reply, "gPing");
    assert s.log.traps + [] == s.log.traps;
    assert s.pendingResponses[key] in s.pendingResponses.Values;
  }

  predicate DigitFree(s: string) {
    forall i :: 0 <= i < |s| ==> !IsDigit(s[i])
  }

  /** Ids with the same number of digits cannot be mistaken for one another in replies without digits. */
  lemma EqualLengthIdsCorrelate(s: State, order: seq<string>, key: string, payload: string, tail: string)
    requires Inv(s) && IsOrder(order, s.pendingResponses)
    requires s.inputBuffer == Frame(key + " " + payload) + tail
    requires key in s.pendingResponses && key != [] && DigitFree(payload)
    requires forall k :: k in s.pendingResponses ==> |k| == |key|
    ensures FrameReady(s)
    ensures Read(s, order) == AnsweredState(s, key, key + " " + payload, tail, TrimLeft(payload))
  {
    forall k | k in s.pendingResponses && k != key
      ensures !Occurs(k, key + " " + payload)
    {
      AwaitedKeyText(s, k);
      OtherIdAbsent(key, k, payload);
    }
    ReplyCorrelates(s, order, key, payload, tail);
  }

  /** The number under which the p-th `write` is sent, if it is no trap. */
  function NumberOf(p: Promise): string {
    IdText(WireId(IdAt(p)))
  }

  lemma AwaitedUnderNumber(t: State, k: string)
    requires InOrder(t) && KeysBelong(t) && k in t.pendingResponses && k != []
    ensures k == NumberOf(t.pendingResponses[k])
  {
    CommandKeyAt(t, t.pendingResponses[k]);
  }

  /** From `write` to its answer: in every run, whatever has gone before, when the keys awaited have the same
      number of digits a digit-free reply with the number of the p-th `write` fulfils the promise that
      `write` made, and no other. */
  lemma ReplyReachesItsWrite(events: seq<Event>, t: State, order: seq<string>, p: Promise, payload: string, tail: string)
    requires Run(INITIAL, events) && t == After(INITIAL, events)
    requires IsOrder(order, t.pendingResponses) && p in t.pendingResponses.Values
    requires forall k :: k in t.pendingResponses ==> |k| == |NumberOf(p)|
    requires t.inputBuffer == Frame(NumberOf(p) + " " + payload) + tail && DigitFree(payload)
    ensures FrameReady(t)
    ensures var key := NumberOf(p);
            && key in t.pendingResponses && t.pendingResponses[key] == p
            && Read(t, order) == AnsweredState(t, key, key + " " + payload, tail, TrimLeft(payload))
  {
    RunReaches(events);
    var key :| key in t.pendingResponses && t.pendingResponses[key] == p;
    AwaitedUnderNumber(t, key);
    EqualLengthIdsCorrelate(t, order, key, payload, tail);
  }

  lemma FiveDigits(i: nat)
    requires i < 90000
    ensures NumberOf(i) == Decimal(FIRST_ID + i) && |Decimal(FIRST_ID + i)| == 5
  {
    IdAtSmall(i);
    var n := FIRST_ID + i;
    assert |Decimal(n / 10)| == 1 + |Decimal(n / 100)|;
    assert |Decimal(n / 100)| == 1 + |Decimal(n / 1000)|;
    assert |Decimal(n / 1000)| == 1 + |Decimal(n / 10000)|;
  }

  /** In particular that holds for the first 90000 requests of a run, as long as no trap is awaited: their
      numbers have five digits. */
  lemma EarlyReplyReachesItsWrite(events: seq<Event>, t: State, order: seq<string>, p: Promise, payload: string, tail: string)
    requires Run(INITIAL, events) && t == After(INITIAL, events)
    requires IsOrder(order, t.pendingResponses) && p in t.pendingResponses.Values && "" !in t.pendingResponses
    requires forall q :: q in t.pendingResponses.Values ==> q < 90000
    requires t.inputBuffer == Frame(Decimal(FIRST_ID + p) + " " + payload) + tail && DigitFree(payload)
    ensures FrameReady(t)
    ensures var key := Decimal(FIRST_ID + p);
            && key in t.pendingResponses && t.pendingResponses[key] == p
            && Read(t, order) == AnsweredState(t, key, key + " " + payload, tail, TrimLeft(payload))
  {
    RunReaches(events);
    FiveDigits(p);
    forall k | k in t.pendingResponses
      ensures |k| == 5
    {
      AwaitedUnderNumber(t, k);
      assert t.pendingResponses[k] in t.pendingResponses.Values;
      FiveDigits(t.pendingResponses[k]);
    }
    ReplyReachesItsWrite(events, t, order, p, payload, tail);
  }
}
