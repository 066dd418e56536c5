/** rrcp_message.hpp: a fixed buffer holding a four-digit hex length and an escaped body. */
module Message {
  import opened Text
  import opened Escape

  const HEADER_LENGTH := 4
  const MAX_MSG_LENGTH := 65432
  const WORD := 0x1_0000_0000_0000_0000

  // ----- the header text -----

  function HexDigit(d: nat): char
    requires d < 16
  {
    if d < 10 then ('0' as int + d) as char else ('a' as int + (d - 10)) as char
  }

  /** `fmt::format("{:04x}", n)` for a 16-bit n. */
  function Hex4(n: nat): string
    requires n < 0x1_0000
  {
    [HexDigit(n / 16 / 16 / 16), HexDigit(n / 16 / 16 % 16), HexDigit(n / 16 % 16), HexDigit(n % 16)]
  }

  predicate IsHex(c: char) {
    '0' <= c <= '9' || 'a' <= c <= 'f' || 'A' <= c <= 'F'
  }

  function HexValue(c: char): nat
    requires IsHex(c)
  {
    if c <= '9' then c as int - '0' as int
    else if c <= 'F' then c as int - 'A' as int + 10
    else c as int - 'a' as int + 10
  }

  /** The value of the leading run of hex digits, behind the digits already read. */
  function HexRun(s: string, sofar: nat): nat {
    if s == [] || !IsHex(s[0]) then sofar else HexRun(s[1..], sofar * 16 + HexValue(s[0]))
  }

  /** `std::stoul(s, nullptr, 16)` on a header: blanks, a sign and a 0x prefix are skipped, the leading hex
      digits are read, a minus sign negates modulo the word size; None is the invalid_argument exception. */
  function Stoul(s: string): Option<nat> {
    var t := TrimLeft(s);
    var u := if t != [] && t[0] in {'+', '-'} then t[1..] else t;
    var v := if |u| >= 3 && u[0] == '0' && u[1] in {'x', 'X'} && IsHex(u[2]) then u[2..] else u;
    if v == [] || !IsHex(v[0]) then None
    else
      var n := HexRun(v, 0);
      Some(if t[0] == '-' && 0 < n < WORD then WORD - n else n)
  }

  lemma HexDigitValue(d: nat)
    requires d < 16
    ensures IsHex(HexDigit(d)) && HexValue(HexDigit(d)) == d && !IsSpace(HexDigit(d))
    ensures HexDigit(d) !in {'+', '-', 'x', 'X'}
  {
    assert HexDigit(d) as int == if d < 10 then 48 + d else 87 + d;
    assert '0' as int == 48 && '9' as int == 57 && 'A' as int == 65 && 'F' as int == 70 && 'a' as int == 97;
  }

  lemma HexRunStep(c: char, rest: string, sofar: nat)
    requires IsHex(c)
    ensures HexRun([c] + rest, sofar) == HexRun(rest, sofar * 16 + HexValue(c))
  {
    assert ([c] + rest)[1..] == rest;
  }

  lemma HexRunFour(a: char, b: char, c: char, d: char)
    requires IsHex(a) && IsHex(b) && IsHex(c) && IsHex(d)
    ensures HexRun([a, b, c, d], 0) == ((HexValue(a) * 16 + HexValue(b)) * 16 + HexValue(c)) * 16 + HexValue(d)
  {
    HexRunStep(a, [b, c, d], 0);
    HexRunStep(b, [c, d], HexValue(a));
    HexRunStep(c, [d], HexValue(a) * 16 + HexValue(b));
    HexRunStep(d, [], (HexValue(a) * 16 + HexValue(b)) * 16 + HexValue(c));
    assert [a] + [b, c, d] == [a, b, c, d] && [b] + [c, d] == [b, c, d] && [c] + [d] == [c, d] && [d] + [] == [d];
  }

  lemma StoulFour(a: char, b: char, c: char, d: char)
    requires IsHex(a) && IsHex(b) && IsHex(c) && IsHex(d)
    requires !IsSpace(a) && a !in {'+', '-'} && b !in {'x', 'X'}
    ensures Stoul([a, b, c, d])
            == Some(((HexValue(a) * 16 + HexValue(b)) * 16 + HexValue(c)) * 16 + HexValue(d))
  {
    var s := [a, b, c, d];
    assert s[0] == a && s[1] == b;
    assert TrimLeft(s) == s;
    HexRunFour(a, b, c, d);
  }

  /** The header is read back as the number it was made from: the four digits lose nothing. */
  lemma HeaderRoundTrip(n: nat)
    requires n < 0x1_0000
    ensures Stoul(Hex4(n)) == Some(n)
  {
    var a, b, c, d := n / 16 / 16 / 16, n / 16 / 16 % 16, n / 16 % 16, n % 16;
    HexDigitValue(a);
    HexDigitValue(b);
    HexDigitValue(c);
    HexDigitValue(d);
    StoulFour(HexDigit(a), HexDigit(b), HexDigit(c), HexDigit(d));
  }

  /** Hex digits in either case count, as std::stoul reads them; what is written is lower case. */
  lemma HexTables(d: nat)
    requires d < 16
    ensures HexDigit(d) == "0123456789abcdef"[d]
    ensures forall c :: IsHex(c) && HexValue(c) == d <==> c == "0123456789abcdef"[d] || c == "0123456789ABCDEF"[d]
  {
    assert '0' as int == 48 && '9' as int == 57 && 'A' as int == 65 && 'F' as int == 70 && 'a' as int == 97;
  }

  /** A header that begins with neither a blank nor a sign nor a hex digit, or is too short for one, throws. */
  lemma NoNumberThrows(s: string)
    requires s == [] || (!IsSpace(s[0]) && s[0] != '+' && s[0] != '-' && !IsHex(s[0]))
    ensures Stoul(s) == None
  {
    assert '0' as int == 48 && '9' as int == 57;
  }

  /** A decoding step that may throw. */
  datatype Outcome = Returned(ok: bool) | Threw

  function Clamp(s: string): string {
    if |s| <= MAX_MSG_LENGTH then s else s[..MAX_MSG_LENGTH]
  }

  class RrcpMessage {
    const data: array<char>
    var msgLength: nat
    var valid: bool

    ghost predicate Valid()
      reads this
    {
      data.Length == HEADER_LENGTH + MAX_MSG_LENGTH && msgLength <= MAX_MSG_LENGTH
    }

    ghost function Header(): string
      requires Valid()
      reads this, data
    {
      data[..HEADER_LENGTH]
    }

    ghost function Body(): string
      requires Valid()
      reads this, data
    {
      data[HEADER_LENGTH..HEADER_LENGTH + msgLength]
    }

    ghost predicate Cleared()
      requires Valid()
      reads this, data
    {
      msgLength == 0 && !valid && forall i :: 0 <= i < data.Length ==> data[i] == '\0'
    }

    constructor ()
      ensures Valid() && Cleared() && fresh(data)
    {
      data := new char[HEADER_LENGTH + MAX_MSG_LENGTH](_ => '\0');
      msgLength, valid := 0, false;
    }

    /** memcpy into the buffer. */
    method Copy(at: nat, src: string)
      requires at + |src| <= data.Length
      modifies data
      ensures data[at..at + |src|] == src
      ensures forall i :: 0 <= i < at || at + |src| <= i < data.Length ==> data[i] == old(data[i])
    {
      forall i | 0 <= i < |src| {
        data[at + i] := src[i];
      }
    }

    method GetData() returns (bytes: string)
      requires Valid()
      ensures bytes == Header() + Body()
    {
      bytes := data[..HEADER_LENGTH + msgLength];
    }

    method GetMsg() returns (r: Decoded)
      requires Valid()
      ensures r == Unescaped(Body())
    {
      r := Esc2Char(data[HEADER_LENGTH..HEADER_LENGTH + msgLength]);
    }

    method SetBodyLength(newLength: nat)
      modifies this`msgLength
      ensures msgLength == if newLength <= MAX_MSG_LENGTH then newLength else MAX_MSG_LENGTH
    {
      msgLength := if newLength <= MAX_MSG_LENGTH then newLength else MAX_MSG_LENGTH;
    }

    /** Succeeds exactly when the escaped message fits; then the body decodes to the message again and the
        header to the length of the body; otherwise nothing of the message is left. */
    method SetMsg(msg: string) returns (ok: bool)
      requires Valid()
      modifies this, data
      ensures Valid()
      ensures ok <==> |Escaped(msg)| <= MAX_MSG_LENGTH
      ensures ok ==> valid && Body() == Escaped(msg) && Unescaped(Body()) == Plain(msg)
      ensures ok ==> Stoul(Header()) == Some(msgLength)
      ensures !ok ==> Cleared()
    {
      var escaped := Char2Esc(msg);
      SetBodyLength(|escaped|);
      if |escaped| > MAX_MSG_LENGTH {
        Clear();
        return false;
      }
      Copy(HEADER_LENGTH, escaped);
      EncodeHeader();
      RoundTrip(msg);
      HeaderRoundTrip(msgLength);
      return valid;
    }

    constructor Of(msg: string)
      ensures Valid() && fresh(data)
      ensures valid <==> |Escaped(msg)| <= MAX_MSG_LENGTH
      ensures valid ==> Unescaped(Body()) == Plain(msg)
      ensures !valid ==> Cleared()
    {
      data := new char[HEADER_LENGTH + MAX_MSG_LENGTH](_ => '\0');
      msgLength, valid := 0, false;
      new;
      var ok := SetMsg(msg);
      valid := ok;
      if !valid {
        Clear();
      }
    }

    /** Replaces the body by its decoding; the header, and on an exception everything, stays. */
    method DecodeBody() returns (r: Outcome)
      requires Valid()
      modifies this`msgLength, data
      ensures Valid() && Header() == old(Header())
      ensures r.Threw? <==> BrokenEscape(old(Body()))
      ensures r.Threw? ==> Body() == old(Body())
      ensures r.Returned? ==> Plain(Body()) == Unescaped(old(Body())) && (r.ok <==> Body() != [])
    {
      var result := Esc2Char(data[HEADER_LENGTH..HEADER_LENGTH + msgLength]);
      ThrowsExactly(Body());
      if result.Throws? {
        return Threw;
      }
      SameLengthSameDecoding(Body());
      if |result.text| != msgLength {
        SetBodyLength(|result.text|);
        Copy(HEADER_LENGTH, result.text);
      }
      return Returned(result.text != []);
    }

    /** Takes the body length from the header; a length out of bounds becomes 0. */
    method DecodeHeader() returns (r: Outcome)
      requires Valid()
      modifies this`msgLength
      ensures Valid()
      ensures r.Threw? <==> Stoul(Header()).None?
      ensures r.Threw? ==> msgLength == old(msgLength)
      ensures r.Returned? ==> (r.ok <==> Stoul(Header()).value <= MAX_MSG_LENGTH)
      ensures r.Returned? ==> msgLength == if r.ok then Stoul(Header()).value else 0
    {
      var header := Stoul(data[..HEADER_LENGTH]);
      if header.None? {
        return Threw;
      }
      msgLength := header.value;
      if msgLength > MAX_MSG_LENGTH {
        msgLength := 0;
        return Returned(false);
      }
      return Returned(true);
    }

    /** Replaces the body by its escaped form, cut off at the size of the buffer. */
    method EncodeBody()
      requires Valid()
      modifies this`msgLength, data
      ensures Valid() && Header() == old(Header())
      ensures Body() == Clamp(Escaped(old(Body())))
    {
      var msg := Char2Esc(data[HEADER_LENGTH..HEADER_LENGTH + msgLength]);
      SameLengthSameText(Body());
      if |msg| != msgLength {
        SetBodyLength(|msg|);
        Copy(HEADER_LENGTH, msg[..msgLength]);
      }
    }

    method EncodeHeader()
      requires Valid()
      modifies this`valid, data
      ensures Valid() && valid && Body() == old(Body())
      ensures Header() == Hex4(msgLength)
    {
      assert msgLength % 0x1_0000 == msgLength;
      var header := Hex4(msgLength % 0x1_0000);
      Copy(0, header);
      valid := true;
      assert data[..HEADER_LENGTH] == data[0..0 + |header|];
      assert forall i :: HEADER_LENGTH <= i < HEADER_LENGTH + msgLength ==> data[i] == old(data[i]);
    }

    method Clear()
      requires data.Length == HEADER_LENGTH + MAX_MSG_LENGTH
      modifies this, data
      ensures Valid() && Cleared()
    {
      msgLength := 0;
      valid := false;
      forall i | 0 <= i < data.Length {
        data[i] := '\0';
      }
    }
  }
}
