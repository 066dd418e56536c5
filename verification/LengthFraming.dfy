/** The length-prefixed wire format of rrcp_client.cpp: main builds frames with rrcp_message, and the client
    reads header and body alternately into one reused rrcp_message. */
module LengthFraming {
  import opened Text
  import opened Segments
  import opened Escape
  import opened Message

  // ----- the sender -----

  /** What of a line is sent: clamped to the buffer before escaping and again after. */
  function SentBody(line: string): (body: string)
    ensures |body| <= MAX_MSG_LENGTH
  {
    Clamp(Escaped(Clamp(line)))
  }

  function WireFrame(line: string): string {
    Hex4(|SentBody(line)|) + SentBody(line)
  }

  function Wire(lines: seq<string>): string {
    if lines == [] then [] else WireFrame(lines[0]) + Wire(lines[1..])
  }

  /** The sequence of calls main makes for one input line. */
  method BuildFrame(line: string) returns (bytes: string)
    ensures bytes == WireFrame(line)
  {
    var msg := new RrcpMessage();
    msg.SetBodyLength(|line|);
    msg.Copy(HEADER_LENGTH, line[..msg.msgLength]);
    assert msg.Body() == Clamp(line);
    msg.EncodeBody();
    msg.EncodeHeader();
    bytes := msg.GetData();
  }

  // ----- the receiver -----

  datatype Phase = AtHeader | AtBody(length: nat) | Closed | Crashed

  /** The read side: what it waits for, the bytes that have arrived, the lines it has printed. */
  datatype Reader = Reader(phase: Phase, buffer: string, printed: seq<string>)

  predicate Ready(r: Reader) {
    match r.phase
    case AtHeader => |r.buffer| >= HEADER_LENGTH
    case AtBody(n) => |r.buffer| >= n
    case _ => false
  }

  function HeaderRead(r: Reader): Reader
    requires r.phase.AtHeader? && Ready(r)
  {
    var rest := r.(buffer := r.buffer[HEADER_LENGTH..]);
    match Stoul(r.buffer[..HEADER_LENGTH])
    case None => rest.(phase := Crashed)
    case Some(n) => rest.(phase := if n > MAX_MSG_LENGTH then Closed else AtBody(n))
  }

  function BodyRead(r: Reader): Reader
    requires r.phase.AtBody? && Ready(r)
  {
    var rest := r.(buffer := r.buffer[r.phase.length..]);
    match Unescaped(r.buffer[..r.phase.length])
    case Throws(_) => rest.(phase := Crashed)
    case Plain(text) =>
      if text == [] then rest.(phase := Closed)
      else rest.(phase := AtHeader, printed := r.printed + [text])
  }

  /** A read that fails closes the socket. */
  function ReadFailed(r: Reader): Reader {
    r.(phase := Closed)
  }

  function Step(r: Reader): Reader
    requires Ready(r)
  {
    if r.phase.AtHeader? then HeaderRead(r) else BodyRead(r)
  }

  function Arrive(r: Reader, bytes: string): Reader {
    r.(buffer := r.buffer + bytes)
  }

  /** Every completed read has been handled. */
  function Settle(r: Reader): Reader
    decreases |r.buffer|, if r.phase.AtBody? then 1 else 0
  {
    if Ready(r) then Settle(Step(r)) else r
  }

  class RrcpReader {
    const readMsg: RrcpMessage
    var phase: Phase
    var buffer: string
    var printed: seq<string>

    ghost predicate Valid()
      reads this, readMsg
    {
      readMsg.Valid() && (phase.AtBody? ==> phase.length == readMsg.msgLength)
    }

    ghost function View(): Reader
      reads this
    {
      Reader(phase, buffer, printed)
    }

    constructor ()
      ensures Valid() && View() == Reader(AtHeader, [], []) && fresh(readMsg) && fresh(readMsg.data)
    {
      readMsg := new RrcpMessage();
      phase, buffer, printed := AtHeader, [], [];
    }

    /** The handler of do_read_header: four bytes have been read over the old header, unless it failed. */
    method OnHeader(failed: bool)
      requires Valid() && phase.AtHeader? && (!failed ==> Ready(View()))
      modifies this`phase, this`buffer, readMsg`msgLength, readMsg.data
      ensures Valid() && View() == if failed then ReadFailed(old(View())) else HeaderRead(old(View()))
    {
      if failed {
        phase := Closed;
        return;
      }
      readMsg.Copy(0, buffer[..HEADER_LENGTH]);
      assert readMsg.Header() == buffer[..HEADER_LENGTH] by {
        assert readMsg.data[..HEADER_LENGTH] == readMsg.data[0..0 + HEADER_LENGTH];
      }
      buffer := buffer[HEADER_LENGTH..];
      var decoded := readMsg.DecodeHeader();
      if decoded.Threw? {
        phase := Crashed;
      } else if decoded.ok {
        phase := AtBody(readMsg.msgLength);
      } else {
        phase := Closed;
      }
    }

    /** The handler of do_read_body: the body has been read over the old one, of which later bytes remain,
        unless it failed. */
    method OnBody(failed: bool)
      requires Valid() && phase.AtBody? && (!failed ==> Ready(View()))
      modifies this`phase, this`buffer, this`printed, readMsg`msgLength, readMsg.data
      ensures Valid() && View() == if failed then ReadFailed(old(View())) else BodyRead(old(View()))
    {
      if failed {
        phase := Closed;
        return;
      }
      var n := readMsg.msgLength;
      readMsg.Copy(HEADER_LENGTH, buffer[..n]);
      assert readMsg.Body() == buffer[..n];
      ThrowsExactly(buffer[..n]);
      buffer := buffer[n..];
      var decoded := readMsg.DecodeBody();
      if decoded.Threw? {
        phase := Crashed;
      } else if decoded.ok {
        printed := printed + [readMsg.data[HEADER_LENGTH..HEADER_LENGTH + readMsg.msgLength]];
        phase := AtHeader;
      } else {
        phase := Closed;
      }
    }
  }

  // ----- fragmentation -----

  lemma StepArrive(r: Reader, bytes: string)
    requires Ready(r)
    ensures Ready(Arrive(r, bytes)) && Step(Arrive(r, bytes)) == Arrive(Step(r), bytes)
  {
    var n := if r.phase.AtHeader? then HEADER_LENGTH else r.phase.length;
    assert (r.buffer + bytes)[..n] == r.buffer[..n];
    assert (r.buffer + bytes)[n..] == r.buffer[n..] + bytes;
  }

  /** Handling reads before more bytes arrive makes no difference to where the reader ends up. */
  lemma {:induction false} SettleArrive(r: Reader, bytes: string)
    ensures Settle(Arrive(Settle(r), bytes)) == Settle(Arrive(r, bytes))
    decreases |r.buffer|, if r.phase.AtBody? then 1 else 0
  {
    if Ready(r) {
      StepArrive(r, bytes);
      SettleArrive(Step(r), bytes);
    }
  }

  lemma {:induction false} SettleKeepsPrinted(r: Reader)
    ensures r.printed <= Settle(r).printed
    decreases |r.buffer|, if r.phase.AtBody? then 1 else 0
  {
    if Ready(r) {
      SettleKeepsPrinted(Step(r));
    }
  }

  datatype Event = EvArrive(bytes: string) | EvRead | EvReadFailed

  predicate Run(r: Reader, events: seq<Event>)
    decreases |events|
  {
    events == []
    || match events[0]
       case EvArrive(bytes) => Run(Arrive(r, bytes), events[1..])
       case EvRead => Ready(r) && Run(Step(r), events[1..])
       case EvReadFailed => (r.phase.AtHeader? || r.phase.AtBody?) && Run(ReadFailed(r), events[1..])
  }

  function After(r: Reader, events: seq<Event>): Reader
    requires Run(r, events)
    decreases |events|
  {
    if events == [] then r
    else
      match events[0]
      case EvArrive(bytes) => After(Arrive(r, bytes), events[1..])
      case EvRead => After(Step(r), events[1..])
      case EvReadFailed => After(ReadFailed(r), events[1..])
  }

  function Arrived(events: seq<Event>): string {
    if events == [] then []
    else (if events[0].EvArrive? then events[0].bytes else []) + Arrived(events[1..])
  }

  lemma ArriveTwice(r: Reader, a: string, b: string)
    ensures Arrive(Arrive(r, a), b) == Arrive(r, a + b)
  {
    assert (r.buffer + a) + b == r.buffer + (a + b);
  }

  lemma ArriveNothing(r: Reader)
    ensures Arrive(r, []) == r
  {
    assert r.buffer + [] == r.buffer;
  }

  /** A step now, or the same step after more bytes have arrived. */
  lemma StepThenArrive(r: Reader, bytes: string)
    requires Ready(r)
    ensures Settle(Arrive(Step(r), bytes)) == Settle(Arrive(r, bytes))
  {
    StepArrive(r, bytes);
  }

  lemma {:induction false} ClosedStays(r: Reader, events: seq<Event>)
    requires r.phase.Closed? && Run(r, events)
    ensures After(r, events).phase.Closed? && After(r, events).printed == r.printed
    decreases |events|
  {
    if events != [] {
      ClosedStays(if events[0].EvArrive? then Arrive(r, events[0].bytes) else r, events[1..]);
    }
  }

  /** However reads and arrivals interleave, no more is printed than if all bytes had come first; and where
      the reader stands is the same, unless it has been closed. */
  lemma {:induction false} RunSettles(r: Reader, events: seq<Event>)
    requires Run(r, events)
    ensures After(r, events).printed <= Settle(Arrive(r, Arrived(events))).printed
    ensures !After(r, events).phase.Closed? ==> Settle(After(r, events)) == Settle(Arrive(r, Arrived(events)))
    decreases |events|
  {
    SettleKeepsPrinted(Arrive(r, Arrived(events)));
    if events == [] {
      ArriveNothing(r);
    } else {
      var e, rest := events[0], events[1..];
      match e
      case EvArrive(bytes) =>
        RunSettles(Arrive(r, bytes), rest);
        ArriveTwice(r, bytes, Arrived(rest));
      case EvRead =>
        RunSettles(Step(r), rest);
        StepThenArrive(r, Arrived(rest));
        assert Arrived(events) == Arrived(rest);
      case EvReadFailed =>
        ClosedStays(ReadFailed(r), rest);
    }
  }

  // ----- round trip -----

  /** The lines main can send whole: not empty, and small enough once escaped. */
  predicate Fits(line: string) {
    line != [] && |Escaped(line)| <= MAX_MSG_LENGTH
  }

  lemma FitsIsSentWhole(line: string)
    requires Fits(line)
    ensures SentBody(line) == Escaped(line)
  {
    EscapedLength(line);
  }

  lemma SettleFrame(printed: seq<string>, body: string, tail: string)
    requires |body| <= MAX_MSG_LENGTH
    ensures var r := Reader(AtHeader, Hex4(|body|) + body + tail, printed);
            Settle(r) == Settle(BodyRead(Reader(AtBody(|body|), body + tail, printed)))
  {
    var h := Hex4(|body|);
    var r := Reader(AtHeader, h + body + tail, printed);
    HeaderRoundTrip(|body|);
    assert r.buffer == h + (body + tail);
    assert r.buffer[..HEADER_LENGTH] == h && r.buffer[HEADER_LENGTH..] == body + tail;
    assert Step(r) == Reader(AtBody(|body|), body + tail, printed);
  }

  /** The body is read off the front of the buffer. */
  lemma BodyInFront(printed: seq<string>, body: string, tail: string)
    ensures var r := Reader(AtBody(|body|), body + tail, printed);
            BodyRead(r) ==
            match Unescaped(body)
            case Throws(_) => Reader(Crashed, tail, printed)
            case Plain(text) =>
              if text == [] then Reader(Closed, tail, printed) else Reader(AtHeader, tail, printed + [text])
  {
    assert (body + tail)[..|body|] == body && (body + tail)[|body|..] == tail;
  }

  /** What a header does, whatever follows it: a length above 65432 closes the socket for good, in every
      continuation; any other one asks for as many bytes. */
  lemma HeaderDecides(n: nat, tail: string, printed: seq<string>, events: seq<Event>)
    requires n < 0x1_0000
    ensures var r := Reader(AtHeader, Hex4(n) + tail, printed);
            && Ready(r)
            && Step(r) == Reader(if n > 65432 then Closed else AtBody(n), tail, printed)
            && (n > 65432 && Run(Step(r), events) ==>
                  After(Step(r), events).phase.Closed? && After(Step(r), events).printed == printed)
  {
    var r := Reader(AtHeader, Hex4(n) + tail, printed);
    HeaderRoundTrip(n);
    assert r.buffer[..4] == Hex4(n) && r.buffer[4..] == tail;
    if n > 65432 && Run(Step(r), events) {
      ClosedStays(Step(r), events);
    }
  }

  /** A header that is no number throws: the reader prints nothing more. */
  lemma BadHeaderCrashes(r: Reader)
    requires r.phase.AtHeader? && Ready(r)
    requires !IsSpace(r.buffer[0]) && r.buffer[0] != '+' && r.buffer[0] != '-' && !IsHex(r.buffer[0])
    ensures Step(r) == Reader(Crashed, r.buffer[4..], r.printed)
    ensures !Ready(Step(r))
  {
    NoNumberThrows(r.buffer[..4]);
  }

  /** What a body does: one with a broken escape throws, one that decodes to nothing closes the socket, and any
      other is printed and followed by the next header. */
  lemma BodyDecides(body: string, tail: string, printed: seq<string>)
    ensures var r := Reader(AtBody(|body|), body + tail, printed);
            && Ready(r)
            && (Step(r).phase.Crashed? <==> BrokenEscape(body))
            && (Step(r).phase.Closed? <==> body == [] || body[0] == '\r')
            && (Step(r).phase.AtHeader? ==>
                  |Step(r).printed| == |printed| + 1 && Step(r).printed[..|printed|] == printed)
            && (!Step(r).phase.AtHeader? ==> Step(r).printed == printed)
            && Step(r).buffer == tail && !Step(r).phase.AtBody?
  {
    ThrowsExactly(body);
    BodyInFront(printed, body, tail);
    if body == [] || body[0] == STOP {
      assert IndexOf(body, STOP) == 0;
    }
  }

  lemma SettleLine(printed: seq<string>, line: string, tail: string)
    requires Fits(line)
    ensures Settle(Reader(AtHeader, WireFrame(line) + tail, printed)) == Settle(Reader(AtHeader, tail, printed + [line]))
  {
    FitsIsSentWhole(line);
    RoundTrip(line);
    SettleFrame(printed, SentBody(line), tail);
    BodyInFront(printed, SentBody(line), tail);
  }

  lemma FirstAndRest<T>(front: seq<T>, s: seq<T>)
    requires s != []
    ensures (front + [s[0]]) + s[1..] == front + s
  {
  }

  lemma {:induction false} SettleWire(printed: seq<string>, lines: seq<string>)
    requires forall i :: 0 <= i < |lines| ==> Fits(lines[i])
    ensures Settle(Reader(AtHeader, Wire(lines), printed)) == Reader(AtHeader, [], printed + lines)
    decreases |lines|
  {
    if lines == [] {
      assert printed + [] == printed;
    } else {
      SettleLine(printed, lines[0], Wire(lines[1..]));
      SettleWire(printed + [lines[0]], lines[1..]);
      FirstAndRest(printed, lines);
    }
  }

  const INITIAL := Reader(AtHeader, [], [])

  lemma SettlesToLines(arrived: string, lines: seq<string>, coming: string)
    requires forall i :: 0 <= i < |lines| ==> Fits(lines[i])
    requires arrived + coming == Wire(lines)
    ensures var s := Settle(Arrive(INITIAL, arrived));
            s.printed <= lines && (coming == [] ==> s == Reader(AtHeader, [], lines))
  {
    var all := Arrive(INITIAL, arrived);
    assert all.buffer == arrived;
    SettleArrive(all, coming);
    SettleWire([], lines);
    assert Arrive(all, coming) == Reader(AtHeader, Wire(lines), []);
    SettleKeepsPrinted(Arrive(Settle(all), coming));
    if coming == [] {
      ArriveNothing(all);
    }
  }

  /** Whatever the fragmentation and the interleaving of arrivals and reads, and even when a read fails, the
      lines printed are a prefix of the lines sent; and all of them once every byte is in and every completed
      read handled, if none has failed. */
  lemma LinesPrinted(events: seq<Event>, lines: seq<string>, coming: string)
    requires forall i :: 0 <= i < |lines| ==> Fits(lines[i])
    requires Run(INITIAL, events) && Arrived(events) + coming == Wire(lines)
    ensures var t := After(INITIAL, events);
            && t.printed <= lines
            && (coming == [] && !Ready(t) && !t.phase.Closed? ==> t == Reader(AtHeader, [], lines))
  {
    RunSettles(INITIAL, events);
    SettlesToLines(Arrived(events), lines, coming);
  }

  /** The clamp before escaping makes no difference: what is sent is the beginning of the escaped line. */
  lemma SentBodyIsCut(line: string)
    ensures SentBody(line) == Clamp(Escaped(line))
  {
    if |line| > MAX_MSG_LENGTH {
      EscapedPrefix(line, MAX_MSG_LENGTH);
      EscapedLength(line[..MAX_MSG_LENGTH]);
      EscapedLength(line);
    }
  }

  /** A line arrives whole exactly when its escaped form fits: a longer one is cut off. */
  lemma SentWholeExactly(line: string)
    requires line != []
    ensures Settle(Reader(AtHeader, WireFrame(line), [])) == Reader(AtHeader, [], [line])
            <==> |Escaped(line)| <= MAX_MSG_LENGTH
  {
    if |Escaped(line)| <= MAX_MSG_LENGTH {
      SettleWire([], [line]);
      assert Wire([line]) == WireFrame(line) by {
        assert Wire([line][1..]) == [];
      }
    } else {
      var n := CutLine(line);
      assert |line[..n]| < |line|;
      assert [line[..n]][0] != [line][0];
    }
  }

  lemma CutBody(line: string) returns (n: nat)
    requires |Escaped(line)| > MAX_MSG_LENGTH
    ensures n < |line|
    ensures if Escaped(line)[MAX_MSG_LENGTH - 1] == ESC then Unescaped(SentBody(line)).Throws?
            else n > 0 && Unescaped(SentBody(line)) == Plain(line[..n])
  {
    SentBodyIsCut(line);
    n := CutEscaped(line, MAX_MSG_LENGTH);
    if Escaped(line)[MAX_MSG_LENGTH - 1] == ESC {
      n := 0;
    } else {
      RoundTrip(line[..n]);
      assert line[..|line|] == line;
    }
  }

  /** A single frame, and what its body decodes to. */
  lemma SettleOne(line: string)
    ensures Settle(Reader(AtHeader, WireFrame(line), [])) ==
            match Unescaped(SentBody(line))
            case Throws(_) => Reader(Crashed, [], [])
            case Plain(text) => if text == [] then Reader(Closed, [], []) else Reader(AtHeader, [], [text])
  {
    var body := SentBody(line);
    SettleFrame([], body, []);
    assert Hex4(|body|) + body + [] == WireFrame(line);
    BodyInFront([], body, []);
    var after := BodyRead(Reader(AtBody(|body|), body + [], []));
    assert !Ready(after) && Settle(after) == after;
  }

  /** What becomes of a longer line: the peer's decoding throws exactly when the cut falls inside an escape
      sequence; otherwise the peer prints a beginning of the line. */
  lemma CutLine(line: string) returns (n: nat)
    requires |Escaped(line)| > MAX_MSG_LENGTH
    ensures n < |line|
    ensures Settle(Reader(AtHeader, WireFrame(line), []))
            == if Escaped(line)[MAX_MSG_LENGTH - 1] == ESC then Reader(Crashed, [], [])
               else Reader(AtHeader, [], [line[..n]])
  {
    n := CutBody(line);
    SettleOne(line);
  }
}
