/** The request and reply side of rrcp_helper.cpp: numbering a command, framing it, and deciding whether a
    reply belongs to a message id. */
module Helper {
  import opened Text
  import opened Escape
  import opened Framing

  const INVALID_ID := 16777216

  /** Where both clients start counting. */
  const FIRST_ID := 10000

  const ERROR_PREFIX := "E:"
  const TRAP_MARK := " T"

  // ----- message ids -----

  function Digit(d: nat): char
    requires d < 10
  {
    ('0' as int + d) as char
  }

  predicate IsDigit(c: char) {
    '0' <= c <= '9'
  }

  function Decimal(n: nat): (s: string)
    ensures s != []
  {
    if n < 10 then [Digit(n)] else Decimal(n / 10) + [Digit(n % 10)]
  }

  function DecimalValue(s: string): int {
    if s == [] then 0 else DecimalValue(s[..|s| - 1]) * 10 + (s[|s| - 1] as int - '0' as int)
  }

  /** `fmt::format("{}", id)`. */
  function IdText(id: int): string {
    if id < 0 then "-" + Decimal(-id) else Decimal(id)
  }

  /** Ids at or above the 24-bit limit are all replaced by 1. */
  function WireId(id: int): int {
    if id >= INVALID_ID then 1 else id
  }

  lemma {:induction false} DecimalDigits(n: nat)
    ensures forall i :: 0 <= i < |Decimal(n)| ==> IsDigit(Decimal(n)[i])
    ensures DecimalValue(Decimal(n)) == n
    ensures |Decimal(n)| > 1 ==> Decimal(n)[0] != '0'
  {
    if n >= 10 {
      DecimalDigits(n / 10);
      var s := Decimal(n);
      assert s[..|s| - 1] == Decimal(n / 10);
    }
  }

  /** Two ids get the same key exactly when they are the same after the 24-bit replacement. */
  lemma SameKeySameId(a: int, b: int)
    ensures IdText(WireId(a)) == IdText(WireId(b)) <==> WireId(a) == WireId(b)
  {
    var x, y := WireId(a), WireId(b);
    DecimalDigits(if x < 0 then -x else x);
    DecimalDigits(if y < 0 then -y else y);
    if IdText(x) == IdText(y) {
      assert IdText(x)[0] == IdText(y)[0];
      if x < 0 {
        assert IdText(x)[1..] == Decimal(-x) && IdText(y)[1..] == Decimal(-y);
      }
    }
  }

  // ----- commands -----

  /** A request becomes "word id rest": `rest` starts at the first S or G behind the first blank. */
  function InsertAfterFirstWord(input: string, toInsert: string): string {
    if toInsert == [] then input
    else
      var firstSpace := FindFirstOf(input, {' ', '\t'});
      if firstSpace == |input| then input
      else
        var nextNonSpace := FindFirstOf(input, {'S', 'G'}, firstSpace);
        if nextNonSpace == |input| then input
        else input[..firstSpace + 1] + toInsert + " " + input[nextNonSpace..]
  }

  predicate IsTrap(message: string) {
    Find(message, TRAP_MARK).Some?
  }

  /** The key under which the reply is awaited, and the frame that is sent. */
  datatype Numbered = Numbered(key: string, frame: string)

  function Number(message: string, id: int): Numbered {
    var key := if IsTrap(message) then [] else IdText(WireId(id));
    Numbered(key, Frame(InsertAfterFirstWord(message, key)))
  }

  /** Which commands are awaited without a number: those in which a blank is followed by a T. All others are
      awaited under their id, or under 1 when the id needs more than 24 bits. */
  lemma TrapsExactly(message: string, id: int)
    ensures var key := Number(message, id).key;
            && (key == [] <==> exists i :: 0 <= i < |message| - 1 && message[i] == ' ' && message[i + 1] == 'T')
            && (key != [] ==> key == IdText(if id >= 16777216 then 1 else id))
  {
    forall i | 0 <= i < |message| - 1
      ensures OccursAt(TRAP_MARK, message, i) <==> message[i] == ' ' && message[i + 1] == 'T'
    {
      assert message[i..i + 2] == [message[i], message[i + 1]];
    }
    if IsTrap(message) {
      var i := Find(message, TRAP_MARK).value;
      assert message[i] == ' ' && message[i + 1] == 'T';
    }
  }

  /** Get and Set requests on the wire: with blank-free name and no trap mark, LF, name, blank, id, blank, the rest
      from the S or G on, CR. */
  lemma RequestForm(name: string, rest: string, id: int)
    requires PlainWord(name) && PlainRest(rest) && rest[0] in {'S', 'G'}
    ensures var key := IdText(if id >= 16777216 then 1 else id);
            Number(name + " " + rest, id)
            == Numbered(key, ['\n'] + (name + " " + key + " " + rest) + ['\r'])
  {
    var key := IdText(if id >= 16777216 then 1 else id);
    NoTrapMark(name, rest, id);
    InsertBetween(name, rest, key);
    IdTextPlain(if id >= 16777216 then 1 else id);
    PlainEscaped(name + " " + key + " " + rest);
  }

  lemma InsertBetween(name: string, rest: string, key: string)
    requires PlainWord(name) && rest != [] && rest[0] in {'S', 'G'} && key != []
    ensures InsertAfterFirstWord(name + " " + rest, key) == name + " " + key + " " + rest
  {
    var m, f := name + " " + rest, |name|;
    assert m[f] == ' ' && m[f + 1] == rest[0];
    assert forall j :: 0 <= j < f ==> m[j] == name[j];
    assert FindFirstOf(m, {' ', '\t'}) == f;
    assert FindFirstOf(m, {'S', 'G'}, f) == f + 1;
    assert m[..f + 1] == name + " " && m[f + 1..] == rest;
  }

  /** Trap commands on the wire: LF, the command as it is, CR; they have no key. */
  lemma TrapForm(name: string, rest: string, id: int)
    requires PlainWord(name) && rest != [] && rest[0] == 'T'
    requires '\n' !in rest && '\r' !in rest && '\U{001B}' !in rest
    ensures Number(name + " " + rest, id) == Numbered([], ['\n'] + (name + " " + rest) + ['\r'])
  {
    var m := name + " " + rest;
    TrapsExactly(m, id);
    assert m[|name|] == ' ' && m[|name| + 1] == 'T';
    PlainEscaped(m);
  }

  predicate PlainWord(s: string) {
    ' ' !in s && '\t' !in s && '\n' !in s && '\r' !in s && '\U{001B}' !in s
  }

  predicate PlainRest(s: string) {
    && s != [] && '\n' !in s && '\r' !in s && '\U{001B}' !in s
    && forall i :: 0 <= i < |s| - 1 ==> !(s[i] == ' ' && s[i + 1] == 'T')
  }

  lemma NoTrapMark(name: string, rest: string, id: int)
    requires PlainWord(name) && PlainRest(rest) && rest[0] in {'S', 'G'}
    ensures Number(name + " " + rest, id).key == IdText(if id >= 16777216 then 1 else id) != []
  {
    var m, f := name + " " + rest, |name|;
    TrapsExactly(m, id);
    forall i | 0 <= i < |m| - 1
      ensures !(m[i] == ' ' && m[i + 1] == 'T')
    {
      if i < f {
        assert m[i] == name[i];
      } else if i == f {
        assert m[i + 1] == rest[0];
      } else {
        assert m[i] == rest[i - f - 1] && m[i + 1] == rest[i - f];
      }
    }
  }

  lemma IdTextPlain(id: int)
    ensures var s := IdText(id);
            '\n' !in s && '\r' !in s && '\U{001B}' !in s
  {
    DecimalDigits(if id < 0 then -id else id);
  }

  method CreateCommandMsg(message: string, id: int) returns (command: string, msgIdStr: string)
    ensures Numbered(msgIdStr, command) == Number(message, id)
  {
    var msgId := id;
    if msgId >= INVALID_ID {
      msgId := 1;
    }
    var trapCmd := Find(message, TRAP_MARK);
    if trapCmd.None? {
      msgIdStr := IdText(msgId);
    } else {
      msgIdStr := [];
    }
    var msg := InsertAfterFirstWord(message, msgIdStr);
    command := Char2Esc(msg);
    command := [START] + command;
    command := command + [STOP];
  }

  /** The peer that parses the frame reads the numbered command; a trap command travels unchanged. */
  lemma PeerReadsCommand(message: string, id: int)
    requires message != []
    ensures var n := Number(message, id);
            ParseSegment(n.frame) == Line(InsertAfterFirstWord(message, n.key))
    ensures IsTrap(message) ==> ParseSegment(Number(message, id).frame) == Line(message)
  {
    FrameParses(InsertAfterFirstWord(message, Number(message, id).key));
  }

  /** No blank, or no S or G behind the first one. */
  predicate Unmarked(message: string) {
    var f := FindFirstOf(message, {' ', '\t'});
    f == |message| || FindFirstOf(message, {'S', 'G'}, f) == |message|
  }

  lemma UnmarkedUnchanged(message: string, id: string)
    requires Unmarked(message)
    ensures InsertAfterFirstWord(message, id) == message
  {
  }

  /** A request without an S or G behind its first blank is awaited under its number but sent without it:
      the peer never learns the number. */
  lemma IdNotSent(message: string, id: int)
    requires message != [] && !IsTrap(message) && Unmarked(message)
    ensures Number(message, id).key == IdText(WireId(id))
    ensures ParseSegment(Number(message, id).frame) == Line(message)
  {
    UnmarkedUnchanged(message, IdText(WireId(id)));
    FrameParses(message);
  }

  /** Taking the inserted id out again gives back the command exactly when nothing stood between the
      first blank and the S or G; otherwise what stood there, such as a logical address, is lost. */
  lemma InsertKeepsCommand(input: string, id: string)
    requires id != [] && FindFirstOf(input, {' ', '\t'}) < |input|
    requires FindFirstOf(input, {'S', 'G'}, FindFirstOf(input, {' ', '\t'})) < |input|
    ensures var f := FindFirstOf(input, {' ', '\t'});
            var out := InsertAfterFirstWord(input, id);
            && f + 1 + |id| + 1 <= |out|
            && out[..f + 1] == input[..f + 1]
            && out[f + 1..f + 1 + |id| + 1] == id + " "
            && out[f + 1 + |id| + 1..] == input[FindFirstOf(input, {'S', 'G'}, f)..]
            && (out[..f + 1] + out[f + 1 + |id| + 1..] == input <==> input[f + 1] in {'S', 'G'})
  {
    var f := FindFirstOf(input, {' ', '\t'});
    var g := FindFirstOf(input, {'S', 'G'}, f);
    var out := InsertAfterFirstWord(input, id);
    var back := out[..f + 1] + out[f + 1 + |id| + 1..];
    assert out[f + 1 + |id| + 1..] == input[g..];
    assert |back| == f + 1 + |input| - g;
    if g == f + 1 {
      assert back == input;
    }
  }

  lemma FramesDiffer(a: string, b: string)
    ensures Frame(a) == Frame(b) <==> a == b
  {
    RoundTrip(a);
    RoundTrip(b);
    assert Frame(a)[1..|Frame(a)| - 1] == Escaped(a) && Frame(b)[1..|Frame(b)| - 1] == Escaped(b);
  }

  lemma TellsApart(head: string, a: string, b: string, tail: string)
    requires head + a + " " + tail == head + b + " " + tail
    ensures a == b
  {
    var x, y := head + a + " " + tail, head + b + " " + tail;
    assert |x| - |head| - 1 - |tail| == |a| && |y| - |head| - 1 - |tail| == |b|;
    assert x[|head|..|head| + |a|] == a && y[|head|..|head| + |b|] == b;
  }

  lemma InsertTells(input: string, a: string, b: string)
    requires a != [] && b != [] && a != b && !Unmarked(input)
    ensures InsertAfterFirstWord(input, a) != InsertAfterFirstWord(input, b)
  {
    var f := FindFirstOf(input, {' ', '\t'});
    var g := FindFirstOf(input, {'S', 'G'}, f);
    if InsertAfterFirstWord(input, a) == InsertAfterFirstWord(input, b) {
      TellsApart(input[..f + 1], a, b, input[g..]);
    }
  }

  /** Whether the peer learns the number at all: the frames for two different numbers are the same exactly
      when the request has no S or G behind its first blank. */
  lemma IdSentExactly(message: string, a: int, b: int)
    requires !IsTrap(message) && WireId(a) != WireId(b)
    ensures Number(message, a).frame == Number(message, b).frame <==> Unmarked(message)
  {
    SameKeySameId(a, b);
    var x, y := IdText(WireId(a)), IdText(WireId(b));
    FramesDiffer(InsertAfterFirstWord(message, x), InsertAfterFirstWord(message, y));
    if Unmarked(message) {
      UnmarkedUnchanged(message, x);
      UnmarkedUnchanged(message, y);
    } else {
      InsertTells(message, x, y);
    }
  }

  /** The documented form with a logical address, M:Bit L:1 G Octet, loses the address. */
  lemma LogicalAddressLost()
    ensures InsertAfterFirstWord("M:Bit L:1 GOctet", "7") == "M:Bit 7 GOctet"
  {
    var s := "M:Bit L:1 GOctet";
    assert s[5] == ' ' && s[10] == 'G';
    assert FindFirstOf(s, {' ', '\t'}) == 5;
    assert FindFirstOf(s, {'S', 'G'}, 5) == 10;
    assert s[..6] == "M:Bit " && s[10..] == "GOctet";
  }

  // ----- replies -----

  /** The cleaned reply when `response` answers the command with key `id`, or None. */
  function Matched(response: string, id: string): Option<string> {
    var pos := Find(response, id);
    if pos.Some? then
      if StartsWith(response, id) then Some(TrimLeft(response[pos.value + |id|..]))
      else Some(TrimRight(response[..pos.value]))
    else if StartsWith(response, ERROR_PREFIX) then Some(response)
    else None
  }

  method FindResponseMsg(response: string, msgId: string) returns (found: bool, cleaned: string)
    ensures found <==> Matched(response, msgId).Some?
    ensures cleaned == if found then Matched(response, msgId).value else response
  {
    cleaned := response;
    var pos := Find(cleaned, msgId);
    if pos.Some? {
      if StartsWith(cleaned, msgId) {
        cleaned := cleaned[pos.value + |msgId|..];
        cleaned := TrimLeft(cleaned);
      } else {
        cleaned := cleaned[..pos.value];
        cleaned := TrimRight(cleaned);
      }
      return true, cleaned;
    }
    if StartsWith(cleaned, ERROR_PREFIX) {
      return true, cleaned;
    }
    return false, cleaned;
  }

  /** Which keys a reply answers: those that occur in it, the empty key of trap commands always, and
      every key at all when it is an error reply. */
  lemma MatchedExactly(response: string, id: string)
    ensures Matched(response, id).Some? <==> Occurs(id, response) || StartsWith(response, ERROR_PREFIX)
    ensures Matched(response, []).Some?
  {
    assert OccursAt([], response, 0);
  }

  lemma MatchedInFront(id: string, rest: string)
    ensures Matched(id + rest, id) == Some(TrimLeft(rest))
  {
    assert OccursAt(id, id + rest, 0);
    assert (id + rest)[|id|..] == rest;
  }

  lemma FindIs(response: string, id: string, i: nat)
    requires OccursAt(id, response, i) && forall j: nat :: j < i ==> !OccursAt(id, response, j)
    ensures Find(response, id) == Some(i)
  {
    var r := Find(response, id);
    assert r.Some?;
  }

  lemma MatchedBehind(response: string, id: string, i: nat)
    requires Find(response, id) == Some(i) && !StartsWith(response, id)
    ensures Matched(response, id) == Some(TrimRight(response[..i]))
  {
  }

  lemma MatchedNowhere(response: string, id: string)
    requires !Occurs(id, response)
    ensures Matched(response, id) == if "E:" <= response then Some(response) else None
  {
    assert Find(response, id).None?;
  }

  /** The text given for a reply. Behind a number in front: what follows it, without leading blanks. In front of
      a number further back: what precedes its first occurrence, without trailing blanks. For an error reply
      that does not name the number: the reply itself. `i` is the first occurrence, if there is one. */
  lemma MatchedText(response: string, id: string, i: nat)
    requires forall j: nat :: j < i ==> !OccursAt(id, response, j)
    ensures OccursAt(id, response, i) ==>
              Matched(response, id) == Some(if i == 0 then TrimLeft(response[|id|..]) else TrimRight(response[..i]))
    ensures !Occurs(id, response) ==>
              Matched(response, id) == if "E:" <= response then Some(response) else None
  {
    if OccursAt(id, response, i) {
      FindIs(response, id, i);
      assert OccursAt(id, response, 0) <==> StartsWith(response, id);
      if i == 0 {
        MatchedInFront(id, response[|id|..]);
        assert response == id + response[|id|..];
      } else {
        MatchedBehind(response, id, i);
      }
    } else if !Occurs(id, response) {
      MatchedNowhere(response, id);
    }
  }

  lemma TrimBlank(payload: string)
    ensures TrimLeft(" " + payload) == TrimLeft(payload)
  {
    assert (" " + payload)[1..] == payload;
  }

  /** A numbered reply gives its payload without leading blanks. */
  lemma MatchedReply(id: string, payload: string)
    ensures Matched(id + " " + payload, id) == Some(TrimLeft(payload))
  {
    MatchedInFront(id, " " + payload);
    assert id + (" " + payload) == id + " " + payload;
    TrimBlank(payload);
  }

  /** A numbered error reply such as E:2 10001 gives the bare error exactly when the id does not already
      occur inside it; with id 2, E:2 2 gives E: only. */
  lemma MatchedError(error: string, id: string)
    requires StartsWith(error, ERROR_PREFIX) && !IsSpace(error[|error| - 1])
    requires id != [] && !IsSpace(id[0]) && !StartsWith(error + " " + id, id)
    ensures Matched(error + " " + id, id) == Some(error)
            <==> forall i: nat :: i < |error| ==> !OccursAt(id, error + " " + id, i)
  {
    var r := error + " " + id;
    assert OccursAt(id, r, |error| + 1);
    assert !OccursAt(id, r, |error|) by {
      assert r[|error|] == ' ';
    }
    var pos := Find(r, id).value;
    if pos < |error| {
      assert |TrimRight(r[..pos])| < |error|;
    } else {
      assert r[..|error| + 1] == error + " ";
      assert (error + " ")[..|error|] == error;
      assert TrimRight(error + " ") == TrimRight(error) == error;
      assert pos == |error| + 1;
    }
  }

  lemma DigitsOccurAtId(id: string, digits: string, payload: string, i: nat)
    requires |digits| == |id| > 0 && OccursAt(digits, id + " " + payload, i) && IsDigit(digits[|digits| - 1])
    requires forall j :: 0 <= j < |payload| ==> !IsDigit(payload[j])
    ensures digits == id
  {
    var r := id + " " + payload;
    assert r[i + |id| - 1] == digits[|id| - 1];
    assert r[..|id|] == id;
  }

  /** Equal-length ids cannot be confused: in a reply to `id` whose payload has no digit, no other id of
      the same length occurs. */
  lemma OtherIdAbsent(id: string, other: string, payload: string)
    requires other != id && |other| == |id| > 0 && IsDigit(other[|other| - 1])
    requires forall i :: 0 <= i < |payload| ==> !IsDigit(payload[i])
    ensures !Occurs(other, id + " " + payload)
  {
    forall i: nat
      ensures !OccursAt(other, id + " " + payload, i)
    {
      if OccursAt(other, id + " " + payload, i) {
        DigitsOccurAtId(id, other, payload, i);
      }
    }
  }
}
