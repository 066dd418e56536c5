/** Delimiter frames: START, escaped message, STOP. The encoder end is create_command_msg, the decoder end
    is parse_rrcp_message under async_read_until. */
module Framing {
  import opened Escape
  import opened Segments

  function Frame(message: string): string {
    [START] + Escaped(message) + [STOP]
  }

  function Frames(messages: seq<string>): string {
    if messages == [] then [] else Frame(messages[0]) + Frames(messages[1..])
  }

  /** Outcome of parsing one read segment: skipped, a line, or an exception out of the read handler. */
  datatype Parsed = Malformed | Line(text: string) | Thrown(error: EscapeError)

  function ParseSegment(segment: string): Parsed {
    if |segment| < 3 || segment[0] != START || segment[|segment| - 1] != STOP then Malformed
    else
      match Unescaped(segment[1..|segment| - 1])
      case Plain(text) => Line(text)
      case Throws(error) => Thrown(error)
  }

  method ParseRrcpMessage(buffer: string, length: nat) returns (r: Parsed)
    ensures r == if length <= |buffer| then ParseSegment(buffer[..length]) else Malformed
  {
    if length < 3 {
      return Malformed;
    }
    if |buffer| < length {
      return Malformed;
    }
    if buffer[0] != START {
      return Malformed;
    }
    if buffer[length - 1] != STOP {
      return Malformed;
    }
    var decoded := Esc2Char(buffer[1..1 + (length - 2)]);
    assert buffer[..length][1..length - 1] == buffer[1..1 + (length - 2)];
    match decoded
    case Plain(text) => return Line(text);
    case Throws(error) => return Thrown(error);
  }

  /** The lines a reader hands on from a list of segments, until a segment makes it throw. */
  datatype Reading = Reading(lines: seq<string>, thrown: bool)

  function ReadSegments(segments: seq<string>): Reading {
    if segments == [] then Reading([], false)
    else
      match ParseSegment(segments[0])
      case Thrown(_) => Reading([], true)
      case Malformed => ReadSegments(segments[1..])
      case Line(text) =>
        var tail := ReadSegments(segments[1..]);
        Reading([text] + tail.lines, tail.thrown)
  }

  /** All lines of a stream, wherever its reads were cut. */
  function ReadStream(stream: string): Reading {
    ReadSegments(Split(stream, STOP).segments)
  }

  predicate NonEmpty(messages: seq<string>) {
    forall k :: 0 <= k < |messages| ==> messages[k] != []
  }

  function Then(first: Reading, second: Reading): Reading {
    if first.thrown then first else Reading(first.lines + second.lines, second.thrown)
  }

  lemma {:induction false} ReadSegmentsAppend(a: seq<string>, b: seq<string>)
    ensures ReadSegments(a + b) == Then(ReadSegments(a), ReadSegments(b))
  {
    if a == [] {
      assert a + b == b;
    } else {
      assert (a + b)[1..] == a[1..] + b;
      ReadSegmentsAppend(a[1..], b);
      if ParseSegment(a[0]).Line? && !ReadSegments(a[1..]).thrown {
        var text, tail, rest := ParseSegment(a[0]).text, ReadSegments(a[1..]).lines, ReadSegments(b).lines;
        assert [text] + (tail + rest) == ([text] + tail) + rest;
      }
    }
  }

  /** Fragmentation does not matter: reading `a`, keeping its incomplete rest, and reading on when `b`
      arrives gives the lines of the whole stream. */
  lemma ReadStreamAppend(a: string, b: string)
    ensures ReadStream(a + b) == Then(ReadStream(a), ReadStream(Split(a, STOP).rest + b))
  {
    SplitAppend(a, b, STOP);
    ReadSegmentsAppend(Split(a, STOP).segments, Split(Split(a, STOP).rest + b, STOP).segments);
  }

  lemma FrameIsSegment(prefix: string, message: string)
    requires IndexOf(prefix, STOP) == |prefix|
    ensures IsSegment(prefix + Frame(message), STOP)
  {
    EscapedIsClean(message);
    IndexOfIsFirst(prefix + Frame(message), STOP, |prefix| + |Frame(message)| - 1);
  }

  /** A frame parses back to its message; the frame of the empty message is too short and is skipped. */
  lemma FrameParses(message: string)
    ensures ParseSegment(Frame(message)) == if message == [] then Malformed else Line(message)
  {
    RoundTrip(message);
    EscapedLength(message);
    var f := Frame(message);
    assert f[1..|f| - 1] == Escaped(message);
  }

  lemma {:induction false} FramesSplit(messages: seq<string>)
    ensures Split(Frames(messages), STOP).rest == []
    ensures ReadStream(Frames(messages)) == Reading(DropEmpty(messages), false)
  {
    if messages != [] {
      FramesSplit(messages[1..]);
      var f, tail := Frame(messages[0]), Frames(messages[1..]);
      FrameIsSegment([], messages[0]);
      assert [] + f == f;
      SplitOne(f, tail, STOP);
      FrameParses(messages[0]);
      assert ([f] + Split(tail, STOP).segments)[1..] == Split(tail, STOP).segments;
    }
  }

  /** Wherever the concatenated frames are cut, what has been read is a prefix of the non-empty originals,
      nothing throws, and once no incomplete frame is left and all bytes are in, it is all of them. */
  lemma FramedRoundTrip(messages: seq<string>, arrived: string, coming: string)
    requires arrived + coming == Frames(messages)
    ensures ReadStream(arrived).lines <= DropEmpty(messages) && !ReadStream(arrived).thrown
    ensures coming == [] ==> ReadStream(arrived).lines == DropEmpty(messages) && Split(arrived, STOP).rest == []
  {
    FramesSplit(messages);
    ReadStreamAppend(arrived, coming);
    if coming == [] {
      assert arrived == Frames(messages);
    }
  }

  /** Text without LF, CR and ESC travels as it is, between LF and CR. */
  lemma {:induction false} PlainEscaped(s: string)
    requires '\n' !in s && '\r' !in s && '\U{001B}' !in s
    ensures Escaped(s) == s && Frame(s) == ['\n'] + s + ['\r']
  {
    if s != [] {
      PlainEscaped(s[1..]);
    }
  }

  // ----- what the reader throws on -----

  /** A segment that passes the checks for length and START, and in whose body an ESC is not followed by a
      replacement byte. */
  ghost predicate BreaksEscape(segment: string) {
    |segment| >= 3 && segment[0] == START && exists i :: 0 < i < |segment| - 1 && BreaksAt(segment, i)
  }

  /** Parsing a read segment throws exactly when the segment breaks an escape. */
  lemma SegmentThrowsExactly(segment: string)
    requires IsSegment(segment, STOP)
    ensures ParseSegment(segment).Thrown? <==> BreaksEscape(segment)
  {
    if |segment| >= 3 && segment[0] == START {
      var body := segment[1..|segment| - 1];
      IndexOfIsFirst(body, STOP, |body|);
      ThrowsExactly(body);
      if BrokenEscape(body) {
        var i: nat :| i < |body| && BreaksAt(body, i);
        assert BreaksAt(segment, i + 1);
      }
      if BreaksEscape(segment) {
        var i :| 0 < i < |segment| - 1 && BreaksAt(segment, i);
        assert BreaksAt(body, i - 1);
      }
    }
  }

  ghost predicate AnyBreaks(segments: seq<string>) {
    exists k :: 0 <= k < |segments| && BreaksEscape(segments[k])
  }

  lemma {:induction false} SegmentsThrowExactly(segments: seq<string>)
    requires forall k :: 0 <= k < |segments| ==> IsSegment(segments[k], STOP)
    ensures ReadSegments(segments).thrown <==> AnyBreaks(segments)
  {
    if segments != [] {
      SegmentThrowsExactly(segments[0]);
      SegmentsThrowExactly(segments[1..]);
      assert forall k :: 1 <= k < |segments| ==> segments[k] == segments[1..][k - 1];
    }
  }

  /** Reading a stream throws exactly when one of its segments breaks an escape. */
  lemma StreamThrowsExactly(stream: string)
    ensures ReadStream(stream).thrown
            <==> AnyBreaks(Split(stream, STOP).segments)
  {
    SplitSegments(stream, STOP);
    SegmentsThrowExactly(Split(stream, STOP).segments);
  }

  // ----- resynchronisation after garbage -----

  lemma {:induction false} EscapeFreeNeverThrows(segments: seq<string>)
    requires forall k :: 0 <= k < |segments| ==> IsSegment(segments[k], STOP) && ESC !in segments[k]
    ensures !ReadSegments(segments).thrown && |ReadSegments(segments).lines| <= |segments|
  {
    if segments != [] {
      var s := segments[0];
      var body := if |s| < 3 then [] else s[1..|s| - 1];
      UnescapePlain(body, []);
      assert body + [] == body;
      EscapeFreeNeverThrows(segments[1..]);
    }
  }

  lemma {:induction false} PiecesEscapeFree(s: string)
    requires ESC !in s
    ensures ESC !in Split(s, STOP).rest
    ensures forall k :: 0 <= k < |Split(s, STOP).segments| ==> ESC !in Split(s, STOP).segments[k]
    decreases |s|
  {
    var i := IndexOf(s, STOP);
    if i < |s| {
      var tail := s[i + 1..];
      PiecesEscapeFree(tail);
      assert Split(s, STOP) == Join([s[..i + 1]], Split(tail, STOP));
    }
  }

  lemma LeftoverJoinsMessage(r: string, message: string)
    requires ESC !in r && STOP !in r && r != [] && r[0] == START
    ensures ParseSegment(r + Frame(message)) == Line(r[1..] + [START] + message)
  {
    var seg, plain := r + Frame(message), r[1..] + [START];
    assert seg[1..|seg| - 1] == plain + Escaped(message);
    UnescapePlain(plain, Escaped(message));
    RoundTrip(message);
  }

  /** What the reader makes of a frame stuck to STOP-free, ESC-free leftovers: it never throws, and it
      recovers the message exactly when there are no leftovers. */
  lemma FrameAfterLeftover(r: string, message: string)
    requires ESC !in r && IndexOf(r, STOP) == |r| && message != []
    ensures !ParseSegment(r + Frame(message)).Thrown?
    ensures ParseSegment(r + Frame(message)) == Line(message) <==> r == []
  {
    if r == [] {
      assert r + Frame(message) == Frame(message);
      FrameParses(message);
    } else if r[0] == START {
      LeftoverJoinsMessage(r, message);
      assert |r[1..] + [START] + message| > |message|;
    }
  }

  lemma ReadFrameThen(r: string, message: string, tail: string)
    requires IndexOf(r, STOP) == |r|
    ensures ReadStream((r + Frame(message)) + tail) == Then(ReadSegments([r + Frame(message)]), ReadStream(tail))
  {
    FrameIsSegment(r, message);
    SplitOne(r + Frame(message), tail, STOP);
    ReadSegmentsAppend([r + Frame(message)], Split(tail, STOP).segments);
  }

  /** The stream behind the garbage, cut where the first message ends. */
  lemma ReadBehindGarbage(garbage: string, message: string, tail: string)
    ensures var p := Split(garbage, STOP);
            ReadStream(garbage + (Frame(message) + tail))
            == Then(ReadSegments(p.segments), Then(ReadSegments([p.rest + Frame(message)]), ReadStream(tail)))
  {
    var p := Split(garbage, STOP);
    SplitCounts(garbage, STOP);
    ReadStreamAppend(garbage, Frame(message) + tail);
    assert p.rest + (Frame(message) + tail) == (p.rest + Frame(message)) + tail;
    ReadFrameThen(p.rest, message, tail);
  }

  lemma ReadOne(segment: string)
    ensures var p := ParseSegment(segment);
            ReadSegments([segment]) == Reading(if p.Line? then [p.text] else [], p.Thrown?)
  {
    assert ReadSegments([segment][1..]) == Reading([], false);
  }

  lemma LinesBehindGarbage(garbage: string, messages: seq<string>) returns (junk: seq<string>, one: seq<string>)
    requires ESC !in garbage && messages != [] && NonEmpty(messages)
    ensures ReadStream(garbage + Frames(messages)) == Reading(junk + (one + messages[1..]), false)
    ensures |junk| <= Count(garbage, STOP) && |one| <= 1
    ensures garbage == [] || garbage[|garbage| - 1] == STOP ==> one == [messages[0]]
  {
    var p := Split(garbage, STOP);
    SplitCounts(garbage, STOP);
    SplitSegments(garbage, STOP);
    PiecesEscapeFree(garbage);
    EscapeFreeNeverThrows(p.segments);
    ReadBehindGarbage(garbage, messages[0], Frames(messages[1..]));
    FramesSplit(messages[1..]);
    FrameAfterLeftover(p.rest, messages[0]);
    ReadOne(p.rest + Frame(messages[0]));
    DropEmptyIdentity(messages[1..]);
    if garbage == [] || garbage[|garbage| - 1] == STOP {
      EndsInStop(garbage);
    }
    junk := ReadSegments(p.segments).lines;
    one := ReadSegments([p.rest + Frame(messages[0])]).lines;
  }

  predicate EndsWith(s: seq<string>, t: seq<string>) {
    |t| <= |s| && s[|s| - |t|..] == t
  }

  lemma EndingsOf(junk: seq<string>, one: seq<string>, messages: seq<string>, lines: seq<string>)
    requires messages != [] && lines == junk + (one + messages[1..])
    ensures EndsWith(lines, messages[1..])
    ensures one == [messages[0]] ==> EndsWith(lines, messages)
  {
    assert one == [messages[0]] ==> one + messages[1..] == messages;
  }

  /** Resynchronisation: behind any ESC-free garbage, every message but the first is recovered, in order,
      with at most one line per STOP of the garbage and one more before them; and the first one is
      recovered too when the garbage is empty or ends in STOP. */
  lemma Resynchronises(garbage: string, messages: seq<string>)
    requires ESC !in garbage && messages != [] && NonEmpty(messages)
    ensures !ReadStream(garbage + Frames(messages)).thrown
    ensures EndsWith(ReadStream(garbage + Frames(messages)).lines, messages[1..])
    ensures |ReadStream(garbage + Frames(messages)).lines| <= Count(garbage, STOP) + |messages|
    ensures garbage == [] || garbage[|garbage| - 1] == STOP ==>
              EndsWith(ReadStream(garbage + Frames(messages)).lines, messages)
  {
    var junk, one := LinesBehindGarbage(garbage, messages);
    EndingsOf(junk, one, messages, ReadStream(garbage + Frames(messages)).lines);
  }

  lemma {:induction false} DropEmptyIdentity(messages: seq<string>)
    requires NonEmpty(messages)
    ensures DropEmpty(messages) == messages
  {
    if messages != [] {
      DropEmptyIdentity(messages[1..]);
    }
  }

  lemma {:induction false} EndsInStop(s: string)
    requires s == [] || s[|s| - 1] == STOP
    ensures Split(s, STOP).rest == []
    decreases |s|
  {
    var i := IndexOf(s, STOP);
    if i < |s| {
      EndsInStop(s[i + 1..]);
    }
  }

  /** The reader's check for an empty parsed line never fires: a segment either is skipped as malformed,
      throws, or gives a non-empty line. */
  lemma NoEmptyLines(segment: string)
    requires IsSegment(segment, STOP)
    ensures ParseSegment(segment) != Line([])
  {
    if |segment| >= 3 && Unescaped(segment[1..|segment| - 1]).Plain? {
      NonEmptyDecodesNonEmpty(segment[1..|segment| - 1]);
    }
  }
}
