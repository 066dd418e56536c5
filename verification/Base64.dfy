/** tests/base64.c: the Base64 encoding of section 4 of RFC 4648 over caller-supplied buffers. */
module Base64 {
  type Bytes = seq<bv8>

  const PAD: bv8 := 0x3D // '='
  const NONE: bv8 := 0xFF // -1 in the decoding table

  /** The alphabet: A-Z, a-z, 0-9, + and /. */
  function Letter(i: bv8): bv8 {
    if i < 26 then 0x41 + i
    else if i < 52 then 0x61 + (i - 26)
    else if i < 62 then 0x30 + (i - 52)
    else if i == 62 then 0x2B
    else 0x2F
  }

  /** The decoding table. */
  function Value(c: bv8): bv8 {
    if 0x41 <= c <= 0x5A then c - 0x41
    else if 0x61 <= c <= 0x7A then c - 0x61 + 26
    else if 0x30 <= c <= 0x39 then c - 0x30 + 52
    else if c == 0x2B then 62
    else if c == 0x2F then 63
    else NONE
  }

  predicate IsBase64(c: bv8) {
    Value(c) != NONE
  }

  // ----- RFC 4648, section 4 -----

  /** Three octets side by side, and the four six-bit groups they form. */
  function Group(a: bv8, b: bv8, c: bv8): bv24 {
    (a as bv24 << 16) | (b as bv24 << 8) | c as bv24
  }

  function Sextets(g: bv24): (bv8, bv8, bv8, bv8) {
    ((g >> 18) as bv8, ((g >> 12) & 0x3F) as bv8, ((g >> 6) & 0x3F) as bv8, (g & 0x3F) as bv8)
  }

  /** The four characters for the next one, two, or three octets: missing octets are zero bits, and groups
      made of padding only are '='. */
  function Quantum(x: Bytes): (q: Bytes)
    requires x != []
    ensures |q| == 4
  {
    var s := Sextets(Group(x[0], if |x| > 1 then x[1] else 0, if |x| > 2 then x[2] else 0));
    [Letter(s.0), Letter(s.1), if |x| > 1 then Letter(s.2) else PAD, if |x| > 2 then Letter(s.3) else PAD]
  }

  function Behind(x: Bytes): Bytes {
    if |x| > 3 then x[3..] else []
  }

  function Encoding(x: Bytes): Bytes
    decreases |x|
  {
    if x == [] then [] else Quantum(x) + Encoding(Behind(x))
  }

  /** BASE64_LENGTH. */
  function EncodedLength(n: nat): nat {
    (n + 2) / 3 * 4
  }

  lemma {:induction false} EncodingLength(x: Bytes)
    ensures |Encoding(x)| == EncodedLength(|x|)
    decreases |x|
  {
    if x != [] {
      EncodingLength(Behind(x));
    }
  }

  // ----- the encoder -----

  /** The index expressions of base64_encode, in the 32-bit arithmetic of the C code. */
  function Index0(a: bv8): bv8 {
    ((a as bv32 >> 2) & 0x3F) as bv8
  }

  function Index1(a: bv8, b: bv8): bv8 {
    (((a as bv32 << 4) + (b as bv32 >> 4)) & 0x3F) as bv8
  }

  function Index2(b: bv8, c: bv8): bv8 {
    (((b as bv32 << 2) + (c as bv32 >> 6)) & 0x3F) as bv8
  }

  function Index3(c: bv8): bv8 {
    (c as bv32 & 0x3F) as bv8
  }

  lemma IndicesAreSextets(a: bv8, b: bv8, c: bv8)
    ensures Sextets(Group(a, b, c)) == (Index0(a), Index1(a, b), Index2(b, c), Index3(c))
  {
  }

  lemma QuantumByIndex(x: Bytes)
    requires x != []
    ensures var b, c := if |x| > 1 then x[1] else 0, if |x| > 2 then x[2] else 0;
            Quantum(x) == [Letter(Index0(x[0])), Letter(Index1(x[0], b)),
                           if |x| > 1 then Letter(Index2(b, c)) else PAD,
                           if |x| > 2 then Letter(Index3(c)) else PAD]
  {
    var b, c := if |x| > 1 then x[1] else 0, if |x| > 2 then x[2] else 0;
    IndicesAreSextets(x[0], b, c);
  }

  function Min(a: nat, b: nat): nat {
    if a < b then a else b
  }

  /** The first n bytes of `out` are the first n of `text`, a NUL follows if there is room, and the rest of
      the array is as before. */
  twostate predicate Filled(out: array<bv8>, outlen: nat, text: Bytes)
    requires outlen <= out.Length
    reads out
  {
    var n := Min(outlen, |text|);
    && (forall k :: 0 <= k < n ==> out[k] == text[k])
    && (n < outlen ==> out[n] == 0)
    && forall i :: n < i < out.Length || (n == outlen && n <= i < out.Length) ==> out[i] == old(out[i])
  }

  /** One turn of the encoder's loop: writes the next quantum, or as much of it as there is room for. The
      source's `break`s are the early returns. */
  method EncodeQuantum(input: Bytes, i: nat, inlen0: nat, out: array<bv8>, o: nat, left0: nat)
    returns (inlen: nat, left: nat)
    requires inlen0 > 0 && i + inlen0 == |input|
    requires left0 > 0 && o + left0 <= out.Length
    modifies out
    ensures left == left0 - Min(4, left0)
    ensures left > 0 ==> inlen == if inlen0 > 3 then inlen0 - 3 else 0
    ensures forall k :: o <= k < o + Min(4, left0) ==> out[k] == Quantum(input[i..])[k - o]
    ensures forall k :: 0 <= k < o || o + Min(4, left0) <= k < out.Length ==> out[k] == old(out[k])
  {
    QuantumByIndex(input[i..]);
    inlen, left := inlen0, left0;
    out[o] := Letter(Index0(input[i]));
    left := left - 1;
    if left == 0 { return; }
    inlen := inlen - 1;
    out[o + 1] := Letter(Index1(input[i], if inlen != 0 then input[i + 1] else 0));
    left := left - 1;
    if left == 0 { return; }
    if inlen != 0 {
      inlen := inlen - 1;
      out[o + 2] := Letter(Index2(input[i + 1], if inlen != 0 then input[i + 2] else 0));
    } else {
      out[o + 2] := PAD;
    }
    left := left - 1;
    if left == 0 { return; }
    out[o + 3] := if inlen != 0 then Letter(Index3(input[i + 2])) else PAD;
    left := left - 1;
    if left == 0 { return; }
    if inlen != 0 {
      inlen := inlen - 1;
    }
  }

  /** Writes as much of the encoding as fits, and a NUL behind it if there is room. */
  method Encode(input: Bytes, out: array<bv8>, outlen: nat)
    requires outlen <= out.Length
    modifies out
    ensures Filled(out, outlen, Encoding(input))
  {
    ghost var text := Encoding(input);
    ghost var rest := input;
    var i, inlen := 0, |input|;
    var o, left := 0, outlen;
    while inlen != 0 && left != 0
      invariant 0 <= o && 0 <= left && o + left == outlen && |rest| == inlen
      invariant 0 <= i <= |input| && (inlen != 0 ==> rest == input[i..])
      invariant o <= |text| && text[o..] == Encoding(rest)
      invariant forall k :: 0 <= k < o ==> out[k] == text[k]
      invariant forall k :: o <= k < out.Length ==> out[k] == old(out[k])
      decreases inlen, left
    {
      var n := Min(4, left);
      NextQuantum(text, o, rest, n);
      inlen, left := EncodeQuantum(input, i, inlen, out, o, left);
      o := o + n;
      if left == 0 { break; }
      if inlen != 0 {
        i := i + 3;
      }
      rest := Behind(rest);
    }
    if left != 0 {
      out[o] := 0;
    }
  }

  lemma NextQuantum(text: Bytes, o: nat, rest: Bytes, n: nat)
    requires o <= |text| && rest != [] && text[o..] == Encoding(rest) && n <= 4
    ensures o + n <= |text|
    ensures forall k :: o <= k < o + n ==> text[k] == Quantum(rest)[k - o]
    ensures n == 4 ==> text[o + 4..] == Encoding(Behind(rest))
  {
    var q, tail := Quantum(rest), Encoding(Behind(rest));
    assert text[o..] == q + tail;
    assert forall k :: 0 <= k < 4 ==> text[o..][k] == q[k];
    assert text[o..][4..] == tail;
  }

  // ----- the decoder -----

  /** The bytes base64_decode produces from a text, and whether it accepts it. */
  datatype Decoding = Decoding(bytes: Bytes, ok: bool)

  function Byte0(a: bv8, b: bv8): bv8 {
    (Value(a) << 2) | (Value(b) >> 4)
  }

  function Byte1(b: bv8, c: bv8): bv8 {
    ((Value(b) << 4) & 0xF0) | (Value(c) >> 2)
  }

  function Byte2(c: bv8, d: bv8): bv8 {
    ((Value(c) << 6) & 0xC0) | Value(d)
  }

  /** What one turn of the decoder's loop makes of the text in front of it: the bytes decoded, and whether
      four characters were accepted. */
  datatype Quad = Quad(bytes: Bytes, whole: bool)

  function ReadQuad(t: Bytes): (q: Quad)
    requires |t| >= 2
    ensures q.whole ==> |t| >= 4
    ensures |q.bytes| <= 3
  {
    if !IsBase64(t[0]) || !IsBase64(t[1]) then Quad([], false)
    else if |t| == 2 then Quad([Byte0(t[0], t[1])], false)
    else if t[2] == PAD then Quad([Byte0(t[0], t[1])], |t| == 4 && t[3] == PAD)
    else if !IsBase64(t[2]) then Quad([Byte0(t[0], t[1])], false)
    else if |t| == 3 then Quad([Byte0(t[0], t[1]), Byte1(t[1], t[2])], false)
    else if t[3] == PAD then Quad([Byte0(t[0], t[1]), Byte1(t[1], t[2])], |t| == 4)
    else if !IsBase64(t[3]) then Quad([Byte0(t[0], t[1]), Byte1(t[1], t[2])], false)
    else Quad([Byte0(t[0], t[1]), Byte1(t[1], t[2]), Byte2(t[2], t[3])], true)
  }

  function Decode(t: Bytes): Decoding {
    if |t| < 2 then Decoding([], t == [])
    else
      var q := ReadQuad(t);
      if !q.whole then Decoding(q.bytes, false)
      else
        var rest := Decode(t[4..]);
        Decoding(q.bytes + rest.bytes, rest.ok)
  }

  /** Appends a decoded byte if there is room left; `n` counts the bytes decoded before. */
  method Put(out: array<bv8>, outlen: nat, outleft: nat, c: bv8, ghost n: nat) returns (left: nat)
    requires outlen <= out.Length && outleft == outlen - Min(outlen, n)
    modifies out
    ensures left == outlen - Min(outlen, n + 1)
    ensures forall k :: 0 <= k < out.Length && !(k == n < outlen) ==> out[k] == old(out[k])
    ensures n < outlen ==> out[n] == c
  {
    left := outleft;
    if outleft != 0 {
      out[outlen - outleft] := c;
      left := left - 1;
    }
  }

  /** One turn of the decoder's loop; the source's `break`s return false. */
  method DecodeQuad(input: Bytes, i: nat, inlen: nat, out: array<bv8>, outlen: nat, outleft: nat, ghost n: nat)
    returns (whole: bool, left: nat)
    requires inlen >= 2 && i + inlen == |input|
    requires outlen <= out.Length && outleft == outlen - Min(outlen, n)
    modifies out
    ensures whole == ReadQuad(input[i..]).whole
    ensures left == outlen - Min(outlen, n + |ReadQuad(input[i..]).bytes|)
    ensures forall k :: n <= k < n + |ReadQuad(input[i..]).bytes| && k < outlen ==>
              out[k] == ReadQuad(input[i..]).bytes[k - n]
    ensures forall k :: 0 <= k < out.Length && !(n <= k < n + |ReadQuad(input[i..]).bytes| && k < outlen) ==>
              out[k] == old(out[k])
  {
    left := outleft;
    if !IsBase64(input[i]) || !IsBase64(input[i + 1]) { return false, left; }
    left := Put(out, outlen, left, Byte0(input[i], input[i + 1]), n);
    if inlen == 2 { return false, left; }
    if input[i + 2] == PAD {
      if inlen != 4 { return false, left; }
      if input[i + 3] != PAD { return false, left; }
    } else {
      if !IsBase64(input[i + 2]) { return false, left; }
      left := Put(out, outlen, left, Byte1(input[i + 1], input[i + 2]), n + 1);
      if inlen == 3 { return false, left; }
      if input[i + 3] == PAD {
        if inlen != 4 { return false, left; }
      } else {
        if !IsBase64(input[i + 3]) { return false, left; }
        left := Put(out, outlen, left, Byte2(input[i + 2], input[i + 3]), n + 2);
      }
    }
    return true, left;
  }

  /** The first |bytes| places of `out`, as far as they lie below outlen, hold `bytes`; the rest of the array
      is as before. */
  twostate predicate Holds(out: array<bv8>, outlen: nat, bytes: Bytes)
    requires outlen <= out.Length
    reads out
  {
    var n := Min(outlen, |bytes|);
    && (forall k :: 0 <= k < n ==> out[k] == bytes[k])
    && forall k :: n <= k < out.Length ==> out[k] == old(out[k])
  }

  /** Reads nothing outside the text, stops at the first text that is no Base64, and writes as much of what
      it has decoded as fits. */
  method Base64Decode(input: Bytes, out: array<bv8>, outlen: nat) returns (ok: bool, written: nat)
    requires outlen <= out.Length
    modifies out
    ensures ok == Decode(input).ok
    ensures written == Min(outlen, |Decode(input).bytes|)
    ensures Holds(out, outlen, Decode(input).bytes)
  {
    var i, inlen, left := 0, |input|, outlen;
    ghost var full := Decode(input).bytes;
    ghost var n: nat := 0;
    ghost var t := input;
    while inlen >= 2
      invariant 0 <= i && 0 <= inlen && i + inlen == |input| && t == input[i..]
      invariant n <= |full| && full[n..] == Decode(t).bytes && Decode(input).ok == Decode(t).ok
      invariant left == outlen - Min(outlen, n)
      invariant forall k :: 0 <= k < n && k < outlen ==> out[k] == full[k]
      invariant forall k :: 0 <= k < out.Length && !(k < n && k < outlen) ==> out[k] == old(out[k])
    {
      NextQuad(full, n, t);
      var whole: bool;
      whole, left := DecodeQuad(input, i, inlen, out, outlen, left, n);
      n := n + |ReadQuad(t).bytes|;
      if !whole { break; }
      t := t[4..];
      i := i + 4;
      inlen := inlen - 4;
    }
    written := outlen - left;
    ok := inlen == 0;
  }

  lemma NextQuad(full: Bytes, n: nat, t: Bytes)
    requires n <= |full| && full[n..] == Decode(t).bytes && |t| >= 2
    ensures var q := ReadQuad(t);
            var m := n + |q.bytes|;
            && m <= |full|
            && (forall k :: n <= k < m ==> full[k] == q.bytes[k - n])
            && (q.whole ==> full[m..] == Decode(t[4..]).bytes && Decode(t).ok == Decode(t[4..]).ok)
            && (!q.whole ==> m == |full| && !Decode(t).ok)
  {
    var q := ReadQuad(t);
    assert forall k :: 0 <= k < |q.bytes| ==> full[n..][k] == q.bytes[k];
    if q.whole {
      assert full[n..][|q.bytes|..] == Decode(t[4..]).bytes;
    }
  }

  // ----- what the decoder accepts, and what it undoes -----

  /** A multiple of four characters, all from the alphabet but for one or two closing '='. */
  predicate WellFormed(t: Bytes) {
    && |t| % 4 == 0
    && forall i :: 0 <= i < |t| ==>
         IsBase64(t[i]) || (t[i] == PAD && (i == |t| - 1 || (i == |t| - 2 && t[|t| - 1] == PAD)))
  }

  lemma WellFormedQuad(t: Bytes)
    requires |t| >= 4
    ensures WellFormed(t) <==> ReadQuad(t).whole && WellFormed(t[4..])
  {
    var u := t[4..];
    if WellFormed(t) {
      assert forall i :: 0 <= i < |u| ==> u[i] == t[i + 4];
    }
    if ReadQuad(t).whole && WellFormed(u) {
      forall i | 0 <= i < |t|
        ensures IsBase64(t[i]) || (t[i] == PAD && (i == |t| - 1 || (i == |t| - 2 && t[|t| - 1] == PAD)))
      {
        if i >= 4 {
          assert u[i - 4] == t[i];
        }
      }
    }
  }

  /** The decoder accepts exactly the well-formed texts. */
  lemma {:induction false} AcceptsExactly(t: Bytes)
    ensures Decode(t).ok <==> WellFormed(t)
  {
    if |t| >= 4 {
      WellFormedQuad(t);
      AcceptsExactly(t[4..]);
    } else if |t| >= 2 {
      assert !ReadQuad(t).whole;
    }
  }

  // ----- what the decoder delivers, bit by bit -----

  /** Of the twelve bits of two neighbouring characters, the eight behind the first 2 * j. */
  function Window(a: bv8, b: bv8, j: nat): bv8
    requires j < 3
  {
    var twelve := (Value(a) as bv16 << 6) | Value(b) as bv16;
    ((if j == 0 then twelve >> 4 else if j == 1 then twelve >> 2 else twelve) & 0xFF) as bv8
  }

  /** With the six-bit values of all characters side by side, bits 8k to 8k + 7: they begin 2 * (k % 3) bits into
      character 4 * (k / 3) + k % 3. */
  function EightBits(t: Bytes, k: nat): bv8
    requires 4 * (k / 3) + k % 3 + 1 < |t|
  {
    var i := 4 * (k / 3) + k % 3;
    Window(t[i], t[i + 1], k % 3)
  }

  lemma WindowBytes(a: bv8, b: bv8)
    requires IsBase64(a) && IsBase64(b)
    ensures Window(a, b, 0) == Byte0(a, b) && Window(a, b, 1) == Byte1(a, b) && Window(a, b, 2) == Byte2(a, b)
  {
    LettersAndValues(0, a);
    LettersAndValues(0, b);
    WindowShifts(Value(a), Value(b));
  }

  lemma WindowShifts(a: bv8, b: bv8)
    requires a < 64 && b < 64
    ensures var twelve := (a as bv16 << 6) | b as bv16;
            && ((twelve >> 4) & 0xFF) as bv8 == (a << 2) | (b >> 4)
            && ((twelve >> 2) & 0xFF) as bv8 == ((a << 4) & 0xF0) | (b >> 2)
            && (twelve & 0xFF) as bv8 == ((a << 6) & 0xC0) | b
  {
  }

  ghost predicate AlphabetRun(t: Bytes, r: nat) {
    r <= |t| && (forall i :: 0 <= i < r ==> IsBase64(t[i])) && (r < |t| ==> !IsBase64(t[r]))
  }

  lemma GroupDelivers(t: Bytes, r: nat)
    requires AlphabetRun(t, r) && |t| >= 2
    ensures |ReadQuad(t).bytes| == if r == 0 then 0 else if r < 4 then r - 1 else 3
    ensures r > 0 ==> forall k :: 0 <= k < |ReadQuad(t).bytes| ==> ReadQuad(t).bytes[k] == EightBits(t, k)
    ensures ReadQuad(t).whole ==> r >= 4 || |t| == 4
    ensures r >= 4 ==> ReadQuad(t).whole
  {
    if r >= 2 {
      WindowBytes(t[0], t[1]);
    }
    if r >= 3 {
      WindowBytes(t[1], t[2]);
    }
    if r >= 4 {
      WindowBytes(t[2], t[3]);
    }
  }

  /** What the decoder delivers of any text, accepted or not: of its longest beginning that consists of alphabet
      characters only, the whole bytes of the six-bit values side by side. `r` is the length of that
      beginning. */
  lemma {:induction false} DeliversExactly(t: Bytes, r: nat)
    requires AlphabetRun(t, r)
    ensures |Decode(t).bytes| == 6 * r / 8
    ensures forall k :: 0 <= k < 6 * r / 8 ==> Decode(t).bytes[k] == EightBits(t, k)
  {
    if |t| >= 2 {
      GroupDelivers(t, r);
      if r >= 4 {
        DeliversExactly(t[4..], r - 4);
        forall k | 3 <= k < 6 * r / 8
          ensures Decode(t).bytes[k] == EightBits(t, k)
        {
          assert Decode(t).bytes[k] == Decode(t[4..]).bytes[k - 3];
          assert (k - 3) / 3 == k / 3 - 1 && (k - 3) % 3 == k % 3;
        }
      }
    }
  }

  lemma LettersAndValues(i: bv8, c: bv8)
    ensures i < 64 ==> Value(Letter(i)) == i && Letter(i) != PAD
    ensures IsBase64(c) ==> Value(c) < 64 && Letter(Value(c)) == c
    ensures !IsBase64(PAD)
  {
  }

  /** The bits of three octets survive the regrouping into sextets and back. */
  lemma RegroupBits(a: bv8, b: bv8, c: bv8)
    ensures var s := Sextets(Group(a, b, c));
            && s.0 < 64 && s.1 < 64 && s.2 < 64 && s.3 < 64
            && (s.0 << 2) | (s.1 >> 4) == a
            && ((s.1 << 4) & 0xF0) | (s.2 >> 2) == b
            && ((s.2 << 6) & 0xC0) | s.3 == c
  {
  }

  lemma QuantumDecodes(x: Bytes, tail: Bytes)
    requires x != [] && (|x| < 3 ==> tail == [])
    ensures ReadQuad(Quantum(x) + tail) == Quad(if |x| > 3 then x[..3] else x, true)
  {
    var a, b, c := x[0], if |x| > 1 then x[1] else 0, if |x| > 2 then x[2] else 0;
    var s := Sextets(Group(a, b, c));
    RegroupBits(a, b, c);
    LettersAndValues(s.0, PAD);
    LettersAndValues(s.1, PAD);
    LettersAndValues(s.2, PAD);
    LettersAndValues(s.3, PAD);
    var t := Quantum(x) + tail;
    assert t[0] == Letter(s.0) && t[1] == Letter(s.1);
    assert t[2] == (if |x| > 1 then Letter(s.2) else PAD) && t[3] == if |x| > 2 then Letter(s.3) else PAD;
  }

  /** Decoding undoes encoding, for every byte string. */
  lemma {:induction false} RoundTrip(x: Bytes)
    ensures Decode(Encoding(x)) == Decoding(x, true)
    decreases |x|
  {
    if x != [] {
      var q, tail := Quantum(x), Encoding(Behind(x));
      QuantumDecodes(x, tail);
      RoundTrip(Behind(x));
      assert (q + tail)[4..] == tail;
      assert (if |x| > 3 then x[..3] else x) + Behind(x) == x;
    }
  }

  /** The bits of the last character that do not belong to any byte are zero. */
  predicate UnusedBitsZero(t: Bytes) {
    |t| >= 4 && t[|t| - 1] == PAD ==>
      if t[|t| - 2] == PAD then Value(t[|t| - 3]) & 0x0F == 0 else Value(t[|t| - 2]) & 0x03 == 0
  }

  lemma RegroupBack(a: bv8, b: bv8, c: bv8, d: bv8)
    requires IsBase64(a) && IsBase64(b) && IsBase64(c) && IsBase64(d)
    ensures Sextets(Group(Byte0(a, b), Byte1(b, c), Byte2(c, d))) == (Value(a), Value(b), Value(c), Value(d))
  {
  }

  lemma RegroupTwo(a: bv8, b: bv8, c: bv8)
    requires IsBase64(a) && IsBase64(b) && IsBase64(c) && Value(c) & 0x03 == 0
    ensures var s := Sextets(Group(Byte0(a, b), Byte1(b, c), 0));
            s.0 == Value(a) && s.1 == Value(b) && s.2 == Value(c)
  {
  }

  lemma RegroupOne(a: bv8, b: bv8)
    requires IsBase64(a) && IsBase64(b) && Value(b) & 0x0F == 0
    ensures var s := Sextets(Group(Byte0(a, b), 0, 0));
            s.0 == Value(a) && s.1 == Value(b)
  {
  }

  lemma LetterOfValue(c: bv8)
    requires IsBase64(c)
    ensures Letter(Value(c)) == c
  {
  }

  lemma FullQuadEncodes(a: bv8, b: bv8, c: bv8, d: bv8, x: Bytes)
    requires IsBase64(a) && IsBase64(b) && IsBase64(c) && IsBase64(d)
    requires |x| >= 3 && x[0] == Byte0(a, b) && x[1] == Byte1(b, c) && x[2] == Byte2(c, d)
    ensures Quantum(x) == [a, b, c, d]
  {
    RegroupBack(a, b, c, d);
    LetterOfValue(a);
    LetterOfValue(b);
    LetterOfValue(c);
    LetterOfValue(d);
  }

  lemma TwoByteQuadEncodes(a: bv8, b: bv8, c: bv8, x: Bytes)
    requires IsBase64(a) && IsBase64(b) && IsBase64(c) && Value(c) & 0x03 == 0
    requires |x| == 2 && x[0] == Byte0(a, b) && x[1] == Byte1(b, c)
    ensures Quantum(x) == [a, b, c, PAD]
  {
    RegroupTwo(a, b, c);
    LetterOfValue(a);
    LetterOfValue(b);
    LetterOfValue(c);
  }

  lemma OneByteQuadEncodes(a: bv8, b: bv8, x: Bytes)
    requires IsBase64(a) && IsBase64(b) && Value(b) & 0x0F == 0
    requires |x| == 1 && x[0] == Byte0(a, b)
    ensures Quantum(x) == [a, b, PAD, PAD]
  {
    RegroupOne(a, b);
    LetterOfValue(a);
    LetterOfValue(b);
  }

  /** Encoding what one accepted group decoded to gives the group back, if its unused bits are zero. */
  lemma QuadEncodes(t: Bytes, more: Bytes)
    requires |t| >= 4 && ReadQuad(t).whole && (|ReadQuad(t).bytes| < 3 ==> UnusedBitsZero(t) && more == [])
    ensures Quantum(ReadQuad(t).bytes + more) == t[..4]
  {
    var x := ReadQuad(t).bytes + more;
    if t[2] == PAD {
      OneByteQuadEncodes(t[0], t[1], x);
    } else if t[3] == PAD {
      TwoByteQuadEncodes(t[0], t[1], t[2], x);
    } else {
      FullQuadEncodes(t[0], t[1], t[2], t[3], x);
    }
  }

  /** Only the last group yields fewer than three bytes, and only it matters for unused bits. */
  lemma ShortQuadIsLast(t: Bytes)
    requires |t| >= 4 && ReadQuad(t).whole
    ensures 1 <= |ReadQuad(t).bytes| <= 3
    ensures |ReadQuad(t).bytes| < 3 ==> t[4..] == []
    ensures UnusedBitsZero(t) ==> UnusedBitsZero(t[4..])
  {
  }

  lemma EncodingStep(x: Bytes, first: Bytes, rest: Bytes)
    requires x == first + rest && 1 <= |first| <= 3 && (|first| < 3 ==> rest == [])
    ensures Encoding(x) == Quantum(x) + Encoding(rest)
  {
    assert Behind(x) == rest;
  }

  lemma {:induction false} EncodeDecoded(t: Bytes)
    requires Decode(t).ok && UnusedBitsZero(t)
    ensures Encoding(Decode(t).bytes) == t
  {
    if |t| >= 4 {
      var first, rest := ReadQuad(t).bytes, t[4..];
      ShortQuadIsLast(t);
      EncodeDecoded(rest);
      QuadEncodes(t, Decode(rest).bytes);
      EncodingStep(Decode(t).bytes, first, Decode(rest).bytes);
    }
  }

  lemma {:induction false} EncodingUnusedBits(x: Bytes)
    ensures UnusedBitsZero(Encoding(x))
    decreases |x|
  {
    if x != [] {
      EncodingUnusedBits(Behind(x));
      EncodingLength(Behind(x));
      var a, b, c := x[0], if |x| > 1 then x[1] else 0, if |x| > 2 then x[2] else 0;
      PaddedBits(a, b, c);
    }
  }

  lemma PaddedBits(a: bv8, b: bv8, c: bv8)
    ensures var s := Sextets(Group(a, b, c));
            && (b == 0 && c == 0 ==> Value(Letter(s.1)) & 0x0F == 0)
            && (c == 0 ==> Value(Letter(s.2)) & 0x03 == 0)
            && Letter(s.2) != PAD && Letter(s.3) != PAD
  {
  }

  /** A text is the encoding of what it decodes to exactly when it is well formed and canonical: its unused
      bits are zero. */
  lemma CanonicalExactly(t: Bytes)
    ensures Encoding(Decode(t).bytes) == t <==> WellFormed(t) && UnusedBitsZero(t)
  {
    AcceptsExactly(t);
    if Encoding(Decode(t).bytes) == t {
      RoundTrip(Decode(t).bytes);
      EncodingUnusedBits(Decode(t).bytes);
    } else if Decode(t).ok && UnusedBitsZero(t) {
      EncodeDecoded(t);
    }
  }

  // ----- allocation -----

  /** 1 + BASE64_LENGTH(n) as computed in size_t, that is modulo w. */
  function AllocSize(n: nat, w: nat): nat
    requires w > 0
  {
    (1 + (n + 2) % w / 3 * 4 % w) % w
  }

  lemma ModOnce(x: nat, w: nat)
    requires w > 0 && x < 2 * w
    ensures x % w == if x < w then x else x - w
  {
    if x >= w {
      assert x == w * 1 + (x - w);
    }
  }

  /** When inlen + 2 overflows the computed size is 1, and the overflow test of base64_encode_alloc is exact
      all the same: the size computed in size_t is below the input
      length precisely when the true size does not fit, and otherwise it is the true size. */
  lemma OverflowTestExact(n: nat, w: nat)
    requires n < w && w >= 16
    ensures n > AllocSize(n, w) <==> 1 + EncodedLength(n) >= w
    ensures 1 + EncodedLength(n) < w ==> AllocSize(n, w) == 1 + EncodedLength(n)
    ensures n + 2 >= w ==> AllocSize(n, w) == 1
  {
    ModOnce(n + 2, w);
    var m := (n + 2) % w;
    ModOnce(m / 3 * 4, w);
    ModOnce(1 + m / 3 * 4 % w, w);
  }

  /** The input length is that of `input`; `mallocOk` says whether malloc succeeds. Overflow is reported as
      0 without a buffer; a failed malloc as the requested size. */
  method EncodeAlloc(input: Bytes, w: nat, mallocOk: bool) returns (length: nat, out: array?<bv8>)
    requires |input| < w && w >= 16
    ensures 1 + EncodedLength(|input|) >= w ==> length == 0 && out == null
    ensures 1 + EncodedLength(|input|) < w && !mallocOk ==> length == 1 + EncodedLength(|input|) && out == null
    ensures 1 + EncodedLength(|input|) < w && mallocOk ==>
              && length == |Encoding(input)|
              && out != null && out[..] == Encoding(input) + [0]
  {
    var outlen := AllocSize(|input|, w);
    OverflowTestExact(|input|, w);
    if |input| > outlen {
      return 0, null;
    }
    if !mallocOk {
      return outlen, null;
    }
    EncodingLength(input);
    out := new bv8[outlen];
    Encode(input, out, outlen);
    return outlen - 1, out;
  }

  lemma {:induction false} DecodedLength(t: Bytes)
    ensures |Decode(t).bytes| <= 3 * (|t| / 4) + 2
  {
    if |t| >= 2 && ReadQuad(t).whole {
      DecodedLength(t[4..]);
    }
  }

  /** The buffer always holds the whole decoding and its size never overflows. `outlen` is the caller's
      variable: it is set only when decoding succeeds, so not after a failed malloc. */
  method DecodeAlloc(input: Bytes, w: nat, mallocOk: bool, outlen0: nat)
    returns (ok: bool, out: array?<bv8>, outlen: nat)
    requires |input| < w && w >= 16
    ensures ok <==> !mallocOk || WellFormed(input)
    ensures out != null <==> mallocOk && WellFormed(input)
    ensures out == null ==> outlen == outlen0
    ensures out != null ==> outlen <= out.Length && out[..outlen] == Decode(input).bytes
  {
    outlen := outlen0;
    var needlen := (3 * (|input| / 4) % w + 2) % w;
    ModOnce(3 * (|input| / 4), w);
    ModOnce(3 * (|input| / 4) + 2, w);
    out := null;
    if !mallocOk {
      return true, out, outlen;
    }
    var buffer := new bv8[needlen];
    var written: nat;
    ok, written := Base64Decode(input, buffer, needlen);
    AcceptsExactly(input);
    DecodedLength(input);
    if !ok {
      return false, null, outlen;
    }
    return true, buffer, written;
  }
}
