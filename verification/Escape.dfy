/** The escape codec of rrcp_helper.cpp: LF, CR and ESC travel as two-byte sequences, so that
    neither frame delimiter can occur inside a frame. */
module Escape {
  import opened Segments

  const START: char := '\n'
  const STOP: char := '\r'
  const ESC: char := '\U{001B}'
  const REPLACE_LF: char := '\U{0001}'
  const REPLACE_CR: char := '\U{0002}'
  const REPLACE_ESC: char := '\U{0003}'

  datatype EscapeError = TrailingEscape | UnknownEscape

  /** What esc2char returns, or the exception it throws. */
  datatype Decoded = Plain(text: string) | Throws(error: EscapeError)

  predicate Special(c: char) {
    c == START || c == STOP || c == ESC
  }

  function Code(c: char): string {
    if c == START then [ESC, REPLACE_LF]
    else if c == STOP then [ESC, REPLACE_CR]
    else if c == ESC then [ESC, REPLACE_ESC]
    else [c]
  }

  function Escaped(s: string): string {
    if s == [] then [] else Code(s[0]) + Escaped(s[1..])
  }

  function Prepend(prefix: string, d: Decoded): Decoded {
    if d.Plain? then Plain(prefix + d.text) else d
  }

  /** The character that the second byte of an escape sequence stands for. */
  function Replaced(c: char): Decoded {
    if c == REPLACE_LF then Plain([START])
    else if c == REPLACE_CR then Plain([STOP])
    else if c == REPLACE_ESC then Plain([ESC])
    else Throws(UnknownEscape)
  }

  function Unescaped(s: string): Decoded {
    if s == [] || s[0] == STOP then Plain([])
    else if s[0] != ESC then Prepend([s[0]], Unescaped(s[1..]))
    else if |s| == 1 then Throws(TrailingEscape)
    else if Replaced(s[1]).Throws? then Replaced(s[1])
    else Prepend(Replaced(s[1]).text, Unescaped(s[2..]))
  }

  /** Neither delimiter byte. */
  predicate NoDelimiter(s: string) {
    START !in s && STOP !in s
  }

  function SpecialCount(s: string): nat {
    if s == [] then 0 else (if Special(s[0]) then 1 else 0) + SpecialCount(s[1..])
  }

  lemma {:induction false} EscapedSnoc(s: string, c: char)
    ensures Escaped(s + [c]) == Escaped(s) + Code(c)
  {
    if s == [] {
      assert Escaped([c][1..]) == [];
    } else {
      assert (s + [c])[1..] == s[1..] + [c];
      EscapedSnoc(s[1..], c);
    }
  }

  method Char2Esc(data: string) returns (message: string)
    ensures message == Escaped(data)
  {
    message := "";
    for i := 0 to |data|
      invariant message == Escaped(data[..i])
    {
      var ch := data[i];
      EscapedSnoc(data[..i], ch);
      assert data[..i + 1] == data[..i] + [ch];
      if ch == START {
        message := message + [ESC];
        message := message + [REPLACE_LF];
      } else if ch == STOP {
        message := message + [ESC];
        message := message + [REPLACE_CR];
      } else if ch == ESC {
        message := message + [ESC];
        message := message + [REPLACE_ESC];
      } else {
        message := message + [ch];
      }
    }
    assert data[..|data|] == data;
  }

  method Esc2Char(data: string) returns (r: Decoded)
    ensures r == Unescaped(data)
  {
    var message := "";
    var i := 0;
    while i < |data|
      invariant 0 <= i <= |data|
      invariant Unescaped(data) == Prepend(message, Unescaped(data[i..]))
    {
      ghost var rest := data[i..];
      var ch := data[i];
      if ch == STOP {
        return Plain(message);
      }
      if ch == ESC {
        if i == |data| - 1 {
          return Throws(TrailingEscape);
        }
        i := i + 1;
        var next := data[i];
        if next == REPLACE_LF {
          ch := START;
        } else if next == REPLACE_CR {
          ch := STOP;
        } else if next == REPLACE_ESC {
          ch := ESC;
        } else {
          return Throws(UnknownEscape);
        }
        assert rest[2..] == data[i + 1..];
      } else {
        assert rest[1..] == data[i + 1..];
      }
      assert Unescaped(rest) == Prepend([ch], Unescaped(data[i + 1..]));
      PrependPrepend(message, [ch], Unescaped(data[i + 1..]));
      message := message + [ch];
      i := i + 1;
    }
    r := Plain(message);
  }

  predicate IsReplacement(c: char) {
    c == REPLACE_LF || c == REPLACE_CR || c == REPLACE_ESC
  }

  /** In front of the first STOP stands an ESC that no replacement byte follows. */
  ghost predicate BrokenEscape(s: string) {
    exists i: nat :: i < IndexOf(s, STOP) && BreaksAt(s, i)
  }

  predicate BreaksAt(s: string, i: nat)
    requires i < |s|
  {
    s[i] == ESC && (i + 1 == |s| || !IsReplacement(s[i + 1]))
  }

  lemma BrokenBehind(s: string, n: nat)
    requires n <= IndexOf(s, STOP) && forall i :: 0 <= i < n ==> !BreaksAt(s, i)
    ensures BrokenEscape(s) <==> BrokenEscape(s[n..])
  {
    var tail := s[n..];
    IndexOfIsFirst(tail, STOP, IndexOf(s, STOP) - n);
    if BrokenEscape(s) {
      var i: nat :| i < IndexOf(s, STOP) && BreaksAt(s, i);
      assert BreaksAt(tail, i - n);
    }
    if BrokenEscape(tail) {
      var i: nat :| i < IndexOf(tail, STOP) && BreaksAt(tail, i);
      assert BreaksAt(s, i + n);
    }
  }

  /** Decoding throws exactly when an ESC in front of the first STOP is not followed by one of the three
      replacement bytes. */
  lemma {:induction false} ThrowsExactly(s: string)
    ensures Unescaped(s).Throws? <==> BrokenEscape(s)
  {
    if s == [] || s[0] == STOP {
    } else if s[0] != ESC {
      ThrowsExactly(s[1..]);
      BrokenBehind(s, 1);
    } else if |s| == 1 || !IsReplacement(s[1]) {
      assert BreaksAt(s, 0);
    } else {
      ThrowsExactly(s[2..]);
      BrokenBehind(s, 2);
    }
  }

  /** Which exception: the one for a trailing escape exactly when the only broken escape is an ESC at the end. */
  lemma {:induction false} TrailingExactly(s: string)
    ensures Unescaped(s) == Throws(TrailingEscape)
            <==> && s != [] && IndexOf(s, STOP) == |s| && s[|s| - 1] == ESC
                 && forall i :: 0 <= i < |s| - 1 ==> !BreaksAt(s, i)
  {
    if s == [] || s[0] == STOP {
    } else if s[0] == ESC && (|s| == 1 || !IsReplacement(s[1])) {
      assert BreaksAt(s, 0);
    } else {
      var n := if s[0] == ESC then 2 else 1;
      var tail := s[n..];
      TrailingExactly(tail);
      IndexOfIsFirst(tail, STOP, IndexOf(s, STOP) - n);
      assert forall i :: n <= i < |s| ==> tail[i - n] == s[i] && (BreaksAt(s, i) <==> BreaksAt(tail, i - n));
      assert forall i :: 0 <= i < n ==> !BreaksAt(s, i);
      assert forall j :: 0 <= j < |tail| ==> (BreaksAt(tail, j) <==> BreaksAt(s, j + n));
    }
  }

  /** The three wire forms, byte by byte. */
  lemma WireBytes()
    ensures Escaped("\n") == ['\U{001B}', '\U{0001}']
    ensures Escaped("\r") == ['\U{001B}', '\U{0002}']
    ensures Escaped("\U{001B}") == ['\U{001B}', '\U{0003}']
    ensures forall c :: c !in {'\n', '\r', '\U{001B}'} ==> Escaped([c]) == [c]
  {
    forall c: char
      ensures Escaped([c]) == Code(c)
    {
      assert [c][1..] == [];
    }
  }

  // ----- the codec is a bijection -----

  lemma PrependPrepend(a: string, b: string, d: Decoded)
    ensures Prepend(a, Prepend(b, d)) == Prepend(a + b, d)
  {
    if d.Plain? {
      assert a + (b + d.text) == (a + b) + d.text;
    }
  }

  lemma UnescapeCode(c: char, more: string, tail: string)
    ensures Unescaped(Code(c) + more + tail) == Prepend([c], Unescaped(more + tail))
  {
    var s := Code(c) + more + tail;
    assert s[|Code(c)|..] == more + tail;
  }

  lemma UnescapeOneMore(c: char, s: string, escaped: string, tail: string)
    requires Unescaped(escaped + tail) == Prepend(s, Unescaped(tail))
    ensures Unescaped(Code(c) + escaped + tail) == Prepend([c] + s, Unescaped(tail))
  {
    UnescapeCode(c, escaped, tail);
    PrependPrepend([c], s, Unescaped(tail));
  }

  lemma {:induction false} UnescapeEscaped(s: string, tail: string)
    ensures Unescaped(Escaped(s) + tail) == Prepend(s, Unescaped(tail))
  {
    if s == [] {
      assert Escaped(s) + tail == tail;
    } else {
      UnescapeEscaped(s[1..], tail);
      UnescapeOneMore(s[0], s[1..], Escaped(s[1..]), tail);
      assert [s[0]] + s[1..] == s;
    }
  }

  /** Decoding undoes encoding, for every byte string. */
  lemma {:induction false} RoundTrip(s: string)
    ensures Unescaped(Escaped(s)) == Plain(s)
  {
    UnescapeEscaped(s, []);
    assert Escaped(s) + [] == Escaped(s);
  }

  /** Encoding undoes decoding, on every delimiter-free string that decodes at all. */
  lemma {:induction false} EscapeUnescaped(s: string)
    requires NoDelimiter(s) && Unescaped(s).Plain?
    ensures Escaped(Unescaped(s).text) == s
  {
    if s == [] {
    } else {
      var n := if s[0] == ESC then 2 else 1;
      EscapeUnescaped(s[n..]);
      var c := if s[0] == ESC then Replaced(s[1]).text[0] else s[0];
      assert Unescaped(s).text == [c] + Unescaped(s[n..]).text;
      assert Code(c) == s[..n];
    }
  }

  /** A text in which only the bare LFs have been escaped. */
  function LfEscaped(s: string): string {
    if s == [] then [] else (if s[0] == START then Code(START) else [s[0]]) + LfEscaped(s[1..])
  }

  lemma {:induction false} LfEscapedAppend(a: string, b: string)
    ensures LfEscaped(a + b) == LfEscaped(a) + LfEscaped(b)
  {
    if a == [] {
      assert a + b == b;
    } else {
      assert (a + b)[1..] == a[1..] + b;
      LfEscapedAppend(a[1..], b);
    }
  }

  lemma TextInFront(s: string, n: nat)
    requires 0 < n <= IndexOf(s, STOP)
    ensures s[..IndexOf(s, STOP)] == s[..n] + s[n..][..IndexOf(s[n..], STOP)]
  {
    var i, tail := IndexOf(s, STOP), s[n..];
    IndexOfIsFirst(tail, STOP, i - n);
    assert s[..i] == s[..n] + tail[..i - n];
  }

  /** One decoding step: the bytes taken, with a bare LF escaped, are the escaped form of the character. */
  lemma LfEscapedStep(s: string, c: char)
    requires (s == [c] && c != STOP && c != ESC)
          || (|s| == 2 && s[0] == ESC && IsReplacement(s[1]) && Replaced(s[1]) == Plain([c]))
    ensures LfEscaped(s) == Code(c)
  {
    assert s[1..] == if |s| == 1 then [] else [s[1]];
    if |s| == 2 {
      assert s[1..][1..] == [];
      assert LfEscaped(s[1..]) == [s[1]];
    }
  }

  lemma DecodeStep(s: string, n: nat, c: char, rest: string)
    requires 0 < n <= IndexOf(s, STOP) && LfEscaped(s[..n]) == Code(c)
    requires Escaped(rest) == LfEscaped(s[n..][..IndexOf(s[n..], STOP)])
    ensures Escaped([c] + rest) == LfEscaped(s[..IndexOf(s, STOP)])
  {
    TextInFront(s, n);
    LfEscapedAppend(s[..n], s[n..][..IndexOf(s[n..], STOP)]);
    assert ([c] + rest)[1..] == rest;
  }

  /** What any text decodes to, if it decodes: the message whose escaped form is the text in front of the first
      STOP, but for the LFs that stand in it bare. */
  lemma {:induction false} DecodesExactly(s: string)
    requires Unescaped(s).Plain?
    ensures Escaped(Unescaped(s).text) == LfEscaped(s[..IndexOf(s, STOP)])
  {
    if s == [] || s[0] == STOP {
    } else {
      var n := if s[0] == ESC then 2 else 1;
      var c := if s[0] == ESC then Replaced(s[1]).text[0] else s[0];
      DecodesExactly(s[n..]);
      LfEscapedStep(s[..n], c);
      DecodeStep(s, n, c, Unescaped(s[n..]).text);
    }
  }

  lemma {:induction false} EscapedIsClean(s: string)
    ensures NoDelimiter(Escaped(s))
  {
    if s != [] {
      EscapedIsClean(s[1..]);
    }
  }

  /** The image of the encoder: exactly the delimiter-free strings that decode without throwing. */
  lemma EscapedExactly(t: string)
    ensures (exists s :: Escaped(s) == t) <==> NoDelimiter(t) && Unescaped(t).Plain?
  {
    if NoDelimiter(t) && Unescaped(t).Plain? {
      EscapeUnescaped(t);
    }
    forall s | Escaped(s) == t
      ensures NoDelimiter(t) && Unescaped(t).Plain?
    {
      EscapedIsClean(s);
      RoundTrip(s);
    }
  }

  lemma {:induction false} EscapedLength(s: string)
    ensures |Escaped(s)| == |s| + SpecialCount(s)
  {
    if s != [] {
      EscapedLength(s[1..]);
    }
  }

  /** The escaped text of a beginning is a beginning of the escaped text. */
  lemma {:induction false} EscapedPrefix(s: string, n: nat)
    requires n <= |s|
    ensures Escaped(s[..n]) <= Escaped(s)
  {
    if n > 0 {
      assert s[..n][1..] == s[1..][..n - 1];
      EscapedPrefix(s[1..], n - 1);
    }
  }

  /** An escaped text that is cut off behind k bytes no longer decodes if the cut falls inside an escape
      sequence; otherwise it is the escaped text of the first n characters. */
  lemma {:induction false} CutEscaped(s: string, k: nat) returns (n: nat)
    requires k <= |Escaped(s)|
    ensures n <= |s|
    ensures if k > 0 && Escaped(s)[k - 1] == ESC then Unescaped(Escaped(s)[..k]).Throws?
            else Escaped(s[..n]) == Escaped(s)[..k]
  {
    n := 0;
    if k > 0 {
      var c := Code(s[0]);
      if k < |c| {
        assert Escaped(s)[..k] == [ESC];
      } else {
        var rest := Escaped(s[1..])[..k - |c|];
        var m := CutEscaped(s[1..], k - |c|);
        n := m + 1;
        assert Escaped(s)[..k] == c + rest == c + rest + [] && rest + [] == rest;
        UnescapeCode(s[0], rest, []);
        assert s[..n][1..] == s[1..][..m];
      }
    }
  }

  /** A message of the same length after escaping is the same message: why the encoder may skip the copy. */
  lemma {:induction false} SameLengthSameText(s: string)
    ensures |Escaped(s)| == |s| <==> Escaped(s) == s
  {
    if s != [] {
      EscapedLength(s[1..]);
      SameLengthSameText(s[1..]);
    }
  }

  /** Decoding never grows a text, and one that keeps its length keeps its content: why the decoder
      may skip the copy. */
  lemma {:induction false} SameLengthSameDecoding(s: string)
    requires Unescaped(s).Plain?
    ensures |Unescaped(s).text| <= |s|
    ensures |Unescaped(s).text| == |s| <==> Unescaped(s).text == s
  {
    if s == [] || s[0] == STOP {
    } else if s[0] == ESC {
      SameLengthSameDecoding(s[2..]);
    } else {
      SameLengthSameDecoding(s[1..]);
    }
  }

  /** Text without escapes or STOP decodes to itself in front of anything. */
  lemma {:induction false} UnescapePlain(s: string, tail: string)
    requires ESC !in s && STOP !in s
    ensures Unescaped(s + tail) == Prepend(s, Unescaped(tail))
  {
    if s == [] {
      assert s + tail == tail;
    } else {
      assert (s + tail)[1..] == s[1..] + tail;
      UnescapePlain(s[1..], tail);
      assert s == [s[0]] + s[1..];
    }
  }

  /** A non-empty text without STOP never decodes to the empty string. */
  lemma NonEmptyDecodesNonEmpty(s: string)
    requires s != [] && STOP !in s && Unescaped(s).Plain?
    ensures Unescaped(s).text != []
  {
    assert s[0] != STOP;
  }

  /** A closing STOP changes nothing: the text before it decodes, or throws, as it does alone. */
  lemma {:induction false} StopEndsDecoding(s: string)
    requires STOP !in s
    ensures Unescaped(s + [STOP]).Plain? <==> Unescaped(s).Plain?
    ensures Unescaped(s).Plain? ==> Unescaped(s + [STOP]) == Unescaped(s)
  {
    if s == [] {
      assert s + [STOP] == [STOP];
    } else if s[0] != ESC {
      assert (s + [STOP])[1..] == s[1..] + [STOP];
      StopEndsDecoding(s[1..]);
    } else if |s| == 1 {
      assert s + [STOP] == [ESC, STOP];
    } else {
      assert (s + [STOP])[2..] == s[2..] + [STOP];
      assert STOP !in s[2..];
      StopEndsDecoding(s[2..]);
    }
  }
}
