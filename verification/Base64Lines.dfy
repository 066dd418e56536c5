/** The fallback encoder of Base64.cpp, which can break its output into lines, and remove_whitespace. */
module Base64Lines {
  import opened Base64

  const NEWLINE: bv8 := 0x0A
  const LINE := 76

  predicate IsSpaceByte(c: bv8) {
    c == 0x20 || 0x09 <= c <= 0x0D
  }

  function RemoveWhitespace(s: Bytes): Bytes {
    if s == [] then []
    else (if IsSpaceByte(s[0]) then [] else [s[0]]) + RemoveWhitespace(s[1..])
  }

  lemma {:induction false} RemoveAppend(a: Bytes, b: Bytes)
    ensures RemoveWhitespace(a + b) == RemoveWhitespace(a) + RemoveWhitespace(b)
  {
    if a == [] {
      assert a + b == b;
    } else {
      assert (a + b)[1..] == a[1..] + b;
      RemoveAppend(a[1..], b);
      var h := if IsSpaceByte(a[0]) then [] else [a[0]];
      assert h + (RemoveWhitespace(a[1..]) + RemoveWhitespace(b)) == (h + RemoveWhitespace(a[1..])) + RemoveWhitespace(b);
    }
  }

  lemma {:induction false} RemoveNothing(s: Bytes)
    requires forall i :: 0 <= i < |s| ==> !IsSpaceByte(s[i])
    ensures RemoveWhitespace(s) == s
  {
    if s != [] {
      RemoveNothing(s[1..]);
    }
  }

  /** Exactly the six ASCII blanks are removed, and everything else is kept in order: what is left has none of
      them, a text without them is left alone, and a blank anywhere makes no difference. */
  lemma RemoveWhitespaceExactly(a: Bytes, c: bv8, b: Bytes)
    ensures forall x :: x in RemoveWhitespace(a) <==> x in a && x !in {0x20, 0x09, 0x0A, 0x0B, 0x0C, 0x0D}
    ensures RemoveWhitespace(a + [c] + b)
            == RemoveWhitespace(a) + (if c in {0x20, 0x09, 0x0A, 0x0B, 0x0C, 0x0D} then [] else [c]) + RemoveWhitespace(b)
  {
    Removed(a);
    BlankBytes(c);
    RemoveAppend(a + [c], b);
    RemoveAppend(a, [c]);
    assert [c][1..] == [];
    assert RemoveWhitespace([c]) == if IsSpaceByte(c) then [] else [c];
  }

  lemma BlankBytes(c: bv8)
    ensures IsSpaceByte(c) <==> c in {0x20, 0x09, 0x0A, 0x0B, 0x0C, 0x0D}
  {
  }

  lemma {:induction false} Removed(a: Bytes)
    ensures forall x :: x in RemoveWhitespace(a) <==> x in a && x !in {0x20, 0x09, 0x0A, 0x0B, 0x0C, 0x0D}
  {
    if a != [] {
      BlankBytes(a[0]);
      Removed(a[1..]);
      assert forall x :: x in a <==> x == a[0] || x in a[1..];
    }
  }

  lemma NoSpaces(i: bv8)
    ensures i < 64 ==> !IsSpaceByte(Letter(i))
    ensures !IsSpaceByte(PAD) && IsSpaceByte(NEWLINE)
  {
  }

  lemma SextetsSmall(g: bv24)
    ensures var s := Sextets(g); s.0 < 64 && s.1 < 64 && s.2 < 64 && s.3 < 64
  {
  }

  lemma QuantumHasNoSpaces(x: Bytes)
    requires x != []
    ensures RemoveWhitespace(Quantum(x)) == Quantum(x) && NEWLINE !in Quantum(x)
    ensures forall i :: 0 <= i < 4 ==> !IsSpaceByte(Quantum(x)[i])
  {
    var s := Sextets(Group(x[0], if |x| > 1 then x[1] else 0, if |x| > 2 then x[2] else 0));
    SextetsSmall(Group(x[0], if |x| > 1 then x[1] else 0, if |x| > 2 then x[2] else 0));
    NoSpaces(s.0);
    NoSpaces(s.1);
    NoSpaces(s.2);
    NoSpaces(s.3);
    RemoveNothing(Quantum(x));
  }

  /** The index expressions of the fallback encoder. */
  function Sixth1(a: bv8): bv8 {
    (a & 0xFC) >> 2
  }

  function Sixth2(a: bv8, b: bv8): bv8 {
    ((a & 0x03) << 4) | ((b & 0xF0) >> 4)
  }

  function Sixth3(b: bv8, c: bv8): bv8 {
    ((b & 0x0F) << 2) | ((c & 0xFC) >> 6)
  }

  function Sixth4(c: bv8): bv8 {
    c & 0x3F
  }

  lemma IndicesAgree(a: bv8, b: bv8, c: bv8)
    ensures Sextets(Group(a, b, c)) == (Sixth1(a), Sixth2(a, b), Sixth3(b, c), Sixth4(c))
  {
  }

  lemma ShortIndices(a: bv8, b: bv8)
    ensures Sixth2(a, 0) == (a & 0x03) << 4
    ensures Sixth3(b, 0) == (b & 0x0F) << 2
  {
  }

  /** The four characters for the octets from `pos` on. */
  method EncodeOctets(data: Bytes, pos: nat) returns (q: Bytes)
    requires pos < |data|
    ensures q == Quantum(data[pos..])
  {
    var a := data[pos];
    if |data| - pos >= 3 {
      IndicesAgree(a, data[pos + 1], data[pos + 2]);
      q := [Letter(Sixth1(a)), Letter(Sixth2(a, data[pos + 1])), Letter(Sixth3(data[pos + 1], data[pos + 2])),
            Letter(Sixth4(data[pos + 2]))];
    } else if |data| - pos == 1 {
      IndicesAgree(a, 0, 0);
      ShortIndices(a, 0);
      q := [Letter(Sixth1(a)), Letter((a & 0x03) << 4), PAD, PAD];
    } else {
      IndicesAgree(a, data[pos + 1], 0);
      ShortIndices(a, data[pos + 1]);
      q := [Letter(Sixth1(a)), Letter(Sixth2(a, data[pos + 1])), Letter((data[pos + 1] & 0x0F) << 2), PAD];
    }
  }

  // ----- line breaks -----

  /** Line breaks stand exactly behind every 76 characters. */
  ghost predicate BrokenAt76(text: Bytes) {
    forall k :: 0 <= k < |text| ==> (text[k] == NEWLINE <==> k % (LINE + 1) == LINE)
  }

  /** `text` has r whole lines and `linelen` characters behind them. */
  ghost predicate Lines(text: Bytes, r: nat, linelen: nat) {
    BrokenAt76(text) && |text| == (LINE + 1) * r + linelen
  }

  lemma ColumnOf(r: nat, j: nat)
    requires j <= LINE
    ensures ((LINE + 1) * r + j) % (LINE + 1) == j
  {
  }

  lemma AddFour(text: Bytes, q: Bytes, r: nat, linelen: nat)
    requires Lines(text, r, linelen) && |q| == 4 && linelen + 4 <= LINE
    requires forall i :: 0 <= i < 4 ==> q[i] != NEWLINE
    ensures Lines(text + q, r, linelen + 4)
  {
    ColumnOf(r, linelen);
    ColumnOf(r, linelen + 1);
    ColumnOf(r, linelen + 2);
    ColumnOf(r, linelen + 3);
  }

  lemma AddBreak(text: Bytes, r: nat)
    requires Lines(text, r, LINE)
    ensures Lines(text + [NEWLINE], r + 1, 0)
  {
    ColumnOf(r, LINE);
  }

  /** Section 6.8 of RFC 2045, no line is longer than 76 characters: any 77 consecutive ones hold a break. */
  lemma LinesFit(text: Bytes, from: nat) returns (k: nat)
    requires BrokenAt76(text) && from + LINE < |text|
    ensures from <= k <= from + LINE && text[k] == NEWLINE
  {
    var r, j := from / (LINE + 1), from % (LINE + 1);
    k := (LINE + 1) * r + LINE;
    ColumnOf(r, LINE);
  }

  // ----- the encoder -----

  lemma AddQuantum(text: Bytes, x: Bytes)
    requires x != []
    ensures RemoveWhitespace(text + Quantum(x)) == RemoveWhitespace(text) + Quantum(x)
    ensures RemoveWhitespace(text) + Encoding(x) == RemoveWhitespace(text + Quantum(x)) + Encoding(Behind(x))
  {
    QuantumHasNoSpaces(x);
    RemoveAppend(text, Quantum(x));
    assert RemoveWhitespace(text) + (Quantum(x) + Encoding(Behind(x)))
        == (RemoveWhitespace(text) + Quantum(x)) + Encoding(Behind(x));
  }

  lemma AddNewline(text: Bytes)
    ensures RemoveWhitespace(text + [NEWLINE]) == RemoveWhitespace(text)
  {
    RemoveAppend(text, [NEWLINE]);
    assert RemoveWhitespace([NEWLINE]) == [] by {
      assert IsSpaceByte([NEWLINE][0]) && RemoveWhitespace([NEWLINE][1..]) == [];
    }
    assert RemoveWhitespace(text) + [] == RemoveWhitespace(text);
  }

  lemma NoBreakInQuantum(x: Bytes)
    requires x != []
    ensures forall i :: 0 <= i < 4 ==> Quantum(x)[i] != NEWLINE
  {
    QuantumHasNoSpaces(x);
    NoSpaces(0);
  }

  /** Appends four characters, and a line break behind the 76th of a line. */
  method AppendBlock(encoded: Bytes, linelen: nat, q: Bytes, withLinebreak: bool, ghost r: nat)
    returns (text: Bytes, len: nat, ghost s: nat)
    requires |q| == 4 && forall i :: 0 <= i < 4 ==> q[i] != NEWLINE
    requires withLinebreak ==> Lines(encoded, r, linelen) && linelen % 4 == 0 && linelen < LINE
    ensures RemoveWhitespace(text) == RemoveWhitespace(encoded + q)
    ensures !withLinebreak ==> text == encoded + q
    ensures withLinebreak ==> Lines(text, s, len) && len % 4 == 0 && len < LINE
    ensures withLinebreak ==> LINE * s + len == LINE * r + linelen + 4
  {
    text, len, s := encoded + q, linelen, r;
    if withLinebreak {
      AddFour(encoded, q, r, linelen);
      len := len + 4;
      if len >= LINE {
        AddBreak(text, r);
        AddNewline(text);
        len, s := 0, r + 1;
        text := text + [NEWLINE];
      }
    }
  }

  /** Without line breaks this is the encoding; with them, the same text with a line break behind every 76
      characters of whole blocks. */
  method EncodeLines(data: Bytes, withLinebreak: bool) returns (encoded: Bytes)
    ensures RemoveWhitespace(encoded) == Encoding(data)
    ensures !withLinebreak ==> encoded == Encoding(data)
    ensures withLinebreak ==> BrokenAt76(encoded) && |encoded| == |Encoding(data)| + |data| / 57
  {
    if data == [] {
      return [];
    }
    encoded := [];
    var linelen: nat := 0;
    ghost var r: nat := 0;
    assert data[0..] == data && [] + Encoding(data) == Encoding(data);
    for i := 0 to |data| / 3
      invariant RemoveWhitespace(encoded) + Encoding(data[3 * i..]) == Encoding(data)
      invariant !withLinebreak ==> encoded == RemoveWhitespace(encoded)
      invariant withLinebreak ==> Lines(encoded, r, linelen) && linelen % 4 == 0 && linelen < LINE
      invariant withLinebreak ==> 4 * i == LINE * r + linelen
    {
      ghost var x := data[3 * i..];
      AddQuantum(encoded, x);
      NoBreakInQuantum(x);
      assert Behind(x) == data[3 * (i + 1)..];
      var q := EncodeOctets(data, 3 * i);
      encoded, linelen, r := AppendBlock(encoded, linelen, q, withLinebreak, r);
    }
    encoded := EncodeRest(data, encoded, linelen, withLinebreak, r);
  }

  /** The one or two octets behind the last whole block. */
  method EncodeRest(data: Bytes, text: Bytes, linelen: nat, withLinebreak: bool, ghost r: nat) returns (encoded: Bytes)
    requires RemoveWhitespace(text) + Encoding(data[3 * (|data| / 3)..]) == Encoding(data)
    requires !withLinebreak ==> text == RemoveWhitespace(text)
    requires withLinebreak ==> Lines(text, r, linelen) && linelen % 4 == 0 && linelen < LINE
    requires withLinebreak ==> 4 * (|data| / 3) == LINE * r + linelen
    ensures RemoveWhitespace(encoded) == Encoding(data)
    ensures !withLinebreak ==> encoded == Encoding(data)
    ensures withLinebreak ==> BrokenAt76(encoded) && |encoded| == |Encoding(data)| + |data| / 57
  {
    encoded := text;
    EncodingLength(data);
    ghost var x := data[3 * (|data| / 3)..];
    if |data| % 3 != 0 {
      AddQuantum(text, x);
      NoBreakInQuantum(x);
      var q := EncodeOctets(data, 3 * (|data| / 3));
      if withLinebreak {
        AddFour(text, q, r, linelen);
      }
      encoded := text + q;
    }
    assert RemoveWhitespace(encoded) + [] == RemoveWhitespace(encoded);
  }
}
