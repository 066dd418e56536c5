/** Known answers: constants and formats spelt out byte by byte, as the repository's tests and RFC 4648 give
    them. */
module Vectors {
  import opened Text
  import opened Escape
  import opened Helper
  import opened Message
  import opened Base64

  // ----- commands -----

  lemma TenThousand()
    ensures IdText(10000) == "10000"
  {
    assert Decimal(1) == "1" && Decimal(10) == "10" && Decimal(100) == "100" && Decimal(1000) == "1000";
  }

  /** M:Bit GState and M:Bit TState: the Get request is numbered, the trap command is not. */
  lemma GetAndTrap(name: string, get: string, trap: string)
    requires name == "M:Bit" && get == "GState" && trap == "TState"
    ensures Number(name + " " + get, 10000)
            == Numbered("10000", ['\n'] + (name + " " + "10000" + " " + get) + ['\r'])
    ensures Number(name + " " + trap, 10000) == Numbered("", ['\n'] + (name + " " + trap) + ['\r'])
  {
    TenThousand();
    RequestForm(name, get, 10000);
    TrapForm(name, trap, 10000);
  }

  /** The largest ids that are sent as they are, and the first that is not. */
  lemma WireIds()
    ensures WireId(16777215) == 16777215 && WireId(16777216) == 1 && FIRST_ID == 10000
  {
  }

  // ----- replies -----

  /** An error reply without a number is given as it is. */
  lemma NamelessError()
    ensures Matched("E:1", "0815") == Some("E:1")
  {
    var response, id := "E:1", "0815";
    assert forall i: nat :: !OccursAt(id, response, i);
    MatchedText(response, id, 0);
    assert response[..2] == "E:";
  }

  /** A line that neither names the number nor is an error is no reply. */
  lemma NoReply()
    ensures Matched("d NoGo", "123456") == None
  {
    var response, id := "d NoGo", "123456";
    forall i: nat
      ensures !OccursAt(id, response, i)
    {
      if i + 6 <= |response| {
        assert response[i..i + 6][0] == 'd';
      }
    }
    MatchedText(response, id, 0);
    assert response[0] != 'E';
  }

  // ----- escaping -----

  /** An ESC in front of the first CR, at the end or with anything but 1, 2 or 3 behind it, throws: so do LF ESC
      EOT CR, ESC CR, ESC at the end, and ESC NUL. */
  lemma StrayEscape(s: string, i: nat)
    requires i < |s| && s[i] == '\U{001B}' && forall j :: 0 <= j < i ==> s[j] != '\r'
    requires i + 1 == |s| || s[i + 1] !in {'\U{0001}', '\U{0002}', '\U{0003}'}
    ensures Unescaped(s).Throws?
  {
    ThrowsExactly(s);
    assert BreaksAt(s, i);
  }

  /** The blanks that are trimmed: the space, and the codes from tab to carriage return. */
  lemma Blanks(c: char)
    ensures IsSpace(c) <==> c as int == 32 || 9 <= c as int <= 13
  {
    assert ' ' as int == 32 && '\t' as int == 9 && '\n' as int == 10 && '\r' as int == 13;
    assert '\U{000B}' as int == 11 && '\U{000C}' as int == 12;
    if 9 <= c as int <= 13 {
      assert c == (c as int) as char;
    }
  }

  // ----- the header -----

  lemma Headers()
    ensures Hex4(0) == "0000" && Hex4(33) == "0021" && Hex4(65432) == "ff98" && MAX_MSG_LENGTH == 65432
  {
  }

  // ----- Base64 -----

  /** Table 1 of RFC 4648: A to Z, a to z, 0 to 9, + and /. */
  lemma Alphabet()
    ensures [Letter(0), Letter(1), Letter(2), Letter(3), Letter(4), Letter(5), Letter(6), Letter(7),
             Letter(8), Letter(9), Letter(10), Letter(11), Letter(12), Letter(13), Letter(14),
             Letter(15), Letter(16), Letter(17), Letter(18), Letter(19), Letter(20), Letter(21),
             Letter(22), Letter(23), Letter(24), Letter(25)]
            == [0x41, 0x42, 0x43, 0x44, 0x45, 0x46, 0x47, 0x48, 0x49, 0x4A, 0x4B, 0x4C, 0x4D, 0x4E, 0x4F,
                0x50, 0x51, 0x52, 0x53, 0x54, 0x55, 0x56, 0x57, 0x58, 0x59, 0x5A]
    ensures [Letter(26), Letter(27), Letter(28), Letter(29), Letter(30), Letter(31), Letter(32),
             Letter(33), Letter(34), Letter(35), Letter(36), Letter(37), Letter(38), Letter(39),
             Letter(40), Letter(41), Letter(42), Letter(43), Letter(44), Letter(45), Letter(46),
             Letter(47), Letter(48), Letter(49), Letter(50), Letter(51)]
            == [0x61, 0x62, 0x63, 0x64, 0x65, 0x66, 0x67, 0x68, 0x69, 0x6A, 0x6B, 0x6C, 0x6D, 0x6E, 0x6F,
                0x70, 0x71, 0x72, 0x73, 0x74, 0x75, 0x76, 0x77, 0x78, 0x79, 0x7A]
    ensures [Letter(52), Letter(53), Letter(54), Letter(55), Letter(56), Letter(57), Letter(58),
             Letter(59), Letter(60), Letter(61)]
            == [0x30, 0x31, 0x32, 0x33, 0x34, 0x35, 0x36, 0x37, 0x38, 0x39]
    ensures [Letter(62), Letter(63)] == [0x2B, 0x2F]
  {
  }

  /** Section 10 of RFC 4648. */
  lemma Rfc4648()
    ensures Encoding([]) == []
    ensures Encoding([0x66]) == [0x5A, 0x67, 0x3D, 0x3D]
    ensures Encoding([0x66, 0x6F]) == [0x5A, 0x6D, 0x38, 0x3D]
    ensures Encoding([0x66, 0x6F, 0x6F]) == [0x5A, 0x6D, 0x39, 0x76]
  {
  }
}
