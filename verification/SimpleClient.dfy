/** The simple RRCP client of async_rrcp_client.hpp: its message ids, which wrap at 24 bits, and its looser
    reading of frames. */
module SimpleClient {
  import opened Text
  import opened Escape
  import opened Framing
  import opened Helper
  import opened Segments

  /** The lines of the simple reader: whatever follows the first byte of each segment, up to the STOP. */
  function LooseSegments(segments: seq<string>): Reading {
    if segments == [] then Reading([], false)
    else if segments[0] == [] || Unescaped(segments[0][1..]).Throws? then Reading([], true)
    else
      var tail := LooseSegments(segments[1..]);
      Reading([Unescaped(segments[0][1..]).text] + tail.lines, tail.thrown)
  }

  class SimpleRrcpClient {
    var msgId: int
    var inputBuffer: string
    var readMsgs: seq<string>
    var traps: seq<string>
    var stopped: bool
    ghost var stopCalls: nat

    constructor ()
      ensures msgId == FIRST_ID && inputBuffer == [] && readMsgs == [] && traps == []
      ensures !stopped && stopCalls == 0
    {
      msgId, inputBuffer, readMsgs, traps, stopped, stopCalls := FIRST_ID, [], [], [], false, 0;
    }

    /** stop(): posts the disconnection unless it has already been carried out. */
    method StopClient()
      modifies this`stopCalls
      ensures stopCalls == old(stopCalls) + if stopped then 0 else 1
    {
      if stopped {
        return;
      }
      stopCalls := stopCalls + 1;
    }

    /** The numbering part of `write`: the n-th call uses the id FIRST_ID + n modulo 2^24. */
    method NextCommand(message: string, ghost n: nat) returns (command: string, msgIdStr: string)
      requires msgId == IdAfter(n)
      modifies this`msgId
      ensures msgId == IdAfter(n + 1) && 0 <= msgId < INVALID_ID
      ensures Numbered(msgIdStr, command) == Number(message, IdAfter(n + 1))
    {
      msgId := (msgId + 1) % INVALID_ID;
      command, msgIdStr := CreateCommandMsg(message, msgId);
    }

    /** The read handler; an exception leaves the buffer as it was, and a failed read calls for a stop. */
    method OnRead(failed: bool) returns (threw: bool)
      requires !failed ==> IndexOf(inputBuffer, STOP) < |inputBuffer|
      modifies this`inputBuffer, this`readMsgs, this`traps, this`stopCalls
      ensures stopCalls == old(stopCalls) + if failed && !stopped then 1 else 0
      ensures failed ==> !threw
      ensures failed || threw ==> inputBuffer == old(inputBuffer) && readMsgs == old(readMsgs) && traps == old(traps)
      ensures !failed ==>
                var n := IndexOf(old(inputBuffer), STOP) + 1;
                var r := LooseSegments([old(inputBuffer)[..n]]);
                && (threw <==> r.thrown)
                && (!threw ==>
                      && inputBuffer == old(inputBuffer)[n..]
                      && readMsgs == old(readMsgs) + Replies(r.lines)
                      && traps == old(traps) + Traps(r.lines))
    {
      if failed {
        StopClient();
        return false;
      }
      var length := IndexOf(inputBuffer, STOP) + 1;
      ghost var segment := inputBuffer[..length];
      assert inputBuffer[1..1 + (length - 1)] == segment[1..];
      assert LooseSegments([segment][1..]) == Reading([], false);
      var line := Esc2Char(inputBuffer[1..1 + (length - 1)]);
      if line.Throws? {
        return true;
      }
      OneLine(line.text);
      inputBuffer := inputBuffer[length..];
      if StartsWith(line.text, "d") {
        traps := traps + [line.text];
      } else if !StartsWith(line.text, "gPing") {
        readMsgs := readMsgs + [line.text];
      }
      return false;
    }
  }

  function Traps(lines: seq<string>): seq<string> {
    if lines == [] then []
    else (if StartsWith(lines[0], "d") then [lines[0]] else []) + Traps(lines[1..])
  }

  function Replies(lines: seq<string>): seq<string> {
    if lines == [] then []
    else
      (if StartsWith(lines[0], "d") || StartsWith(lines[0], "gPing") then [] else [lines[0]]) + Replies(lines[1..])
  }

  lemma OneLine(line: string)
    ensures Traps([line]) == if StartsWith(line, "d") then [line] else []
    ensures Replies([line]) == if StartsWith(line, "d") || StartsWith(line, "gPing") then [] else [line]
  {
    assert [line][1..] == [];
  }

  // ----- ids -----

  function IdAfter(n: nat): int {
    (FIRST_ID + n) % INVALID_ID
  }

  lemma SameRemainder(a: nat, b: nat)
    requires a <= b
    ensures a % INVALID_ID == b % INVALID_ID <==> (b - a) % INVALID_ID == 0
  {
    var q, t := b / INVALID_ID - a / INVALID_ID, (b - a) / INVALID_ID;
    assert b - a == INVALID_ID * q + (b % INVALID_ID - a % INVALID_ID);
    assert b - a == INVALID_ID * t + (b - a) % INVALID_ID;
  }

  /** Two commands get the same key exactly when a multiple of 2^24 commands lies between them: any 2^24
      consecutive ones are told apart. */
  lemma IdsRepeatExactly(j: nat, k: nat)
    requires j <= k
    ensures IdText(WireId(IdAfter(j))) == IdText(WireId(IdAfter(k))) <==> (k - j) % INVALID_ID == 0
  {
    SameKeySameId(IdAfter(j), IdAfter(k));
    SameRemainder(FIRST_ID + j, FIRST_ID + k);
  }

  // ----- the two readers -----

  /** On a segment that opens with START and has a body, both clients read the same line or both throw. */
  lemma ReadersAgree(segment: string)
    requires IsSegment(segment, STOP) && |segment| >= 3 && segment[0] == START
    ensures LooseSegments([segment]) == ReadSegments([segment])
  {
    var body := segment[1..|segment| - 1];
    assert segment[1..] == body + [STOP];
    assert STOP !in body;
    StopEndsDecoding(body);
    assert [segment][1..] == [];
  }

  /** On any other segment the simple client hands on a line, or throws, where the thread-safe one skips. */
  lemma ReadersDiffer(segment: string)
    requires IsSegment(segment, STOP) && (|segment| < 3 || segment[0] != START)
    ensures ReadSegments([segment]) == Reading([], false)
    ensures LooseSegments([segment]) != Reading([], false)
  {
    assert [segment][1..] == [];
  }

  /** How the simple client reads any segment: one of at least three bytes as if it began with START, a shorter
      one as an empty line. */
  lemma LooseExactly(segment: string)
    requires IsSegment(segment, STOP)
    ensures LooseSegments([segment]) ==
            if |segment| >= 3 then ReadSegments([['\n'] + segment[1..]]) else Reading([[]], false)
  {
    assert [segment][1..] == [];
    if |segment| >= 3 {
      var proper: string := [START] + segment[1..];
      IndexOfIsFirst(proper, STOP, |segment| - 1);
      ReadersAgree(proper);
      assert proper[1..] == segment[1..];
      assert [proper][1..] == [];
    } else {
      assert segment[1..] == [] || segment[1..] == [STOP];
    }
  }

  lemma {:induction false} LooseAppend(s: string, tail: seq<string>)
    ensures LooseSegments([s] + tail) == Then(LooseSegments([s]), LooseSegments(tail))
  {
    assert ([s] + tail)[1..] == tail;
    assert LooseSegments([s][1..]) == Reading([], false);
  }

  /** Over a whole stream of proper frames the two clients read the same lines. */
  lemma {:induction false} StreamsAgree(segments: seq<string>)
    requires forall k :: 0 <= k < |segments| ==>
               IsSegment(segments[k], STOP) && |segments[k]| >= 3 && segments[k][0] == START
    ensures LooseSegments(segments) == ReadSegments(segments)
  {
    if segments != [] {
      ReadersAgree(segments[0]);
      StreamsAgree(segments[1..]);
      LooseAppend(segments[0], segments[1..]);
      ReadSegmentsAppend([segments[0]], segments[1..]);
      assert segments == [segments[0]] + segments[1..];
    }
  }
}
