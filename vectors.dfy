/** The test vectors of proxyprotocol_test.go, stated on the model: each literal
    input or output of a test is written out in full, and the model is proved to
    give the result the test expects. */
module HeaderVectors {

  import opened Errors
  import opened Bytes
  import IPv4
  import opened Cursor
  import opened ProxyProtocol
  import opened HeaderProperties

  /** The bytes of a string of ASCII characters (each character's code, modulo 256). */
  function Ascii(t: string): seq<byte> {
    seq(|t|, i requires 0 <= i < |t| => (t[i] as int % 0x100) as byte)
  }

  /** Ascii works character by character, so it distributes over concatenation. */
  lemma AsciiAppend(a: string, b: string)
    ensures Ascii(a + b) == Ascii(a) + Ascii(b)
  {
  }

  function Addr(a: byte, b: byte, c: byte, d: byte, port: int): TCPAddr {
    TCPAddr(Some(IPv4.IP(a, b, c, d)), port)
  }

  /** Bytes without '\r' hold no "\r\n". */
  lemma {:induction false} NoCrlfWithoutCr(junk: seq<byte>)
    requires forall i :: 0 <= i < |junk| ==> junk[i] != CR
    ensures forall i :: 0 <= i < |junk| ==> !OccursAt(junk, i, CRLF)
  {
    forall i | 0 <= i < |junk| ensures !OccursAt(junk, i, CRLF) {
      if i + 2 <= |junk| {
        assert junk[i..i + 2][0] == junk[i];
      }
    }
  }

  // ---------------------------------------------------------------------------
  // The tokens of the test lines

  lemma Numeral255()
    ensures DecimalDigits(255) == Ascii("255")
  {
  }

  lemma Numeral254()
    ensures DecimalDigits(254) == Ascii("254")
  {
  }

  lemma Address255()
    ensures IPv4.Format(IPv4.IP(255, 255, 255, 255)) == Ascii("255.255.255.255")
  {
    Numeral255();
  }

  lemma Address254()
    ensures IPv4.Format(IPv4.IP(255, 255, 255, 254)) == Ascii("255.255.255.254")
  {
    Numeral255();
    Numeral254();
  }

  lemma Port65535()
    ensures DecimalDigits(65535) == Ascii("65535")
  {
  }

  lemma Port65534()
    ensures DecimalDigits(65534) == Ascii("65534")
  {
  }

  lemma Loopback1()
    ensures IPv4.Format(IPv4.IP(127, 0, 0, 1)) == Ascii("127.0.0.1")
  {
  }

  lemma Loopback2()
    ensures IPv4.Format(IPv4.IP(127, 0, 0, 2)) == Ascii("127.0.0.2")
  {
  }

  lemma Port8080()
    ensures FormatInt(8080) == Ascii("8080")
  {
  }

  lemma Port8081()
    ensures FormatInt(8081) == Ascii("8081")
  {
  }

  /** A head that ends in the first field and a space, then the rest of the line. */
  lemma LineOfParts(family: seq<byte>, x: seq<byte>, y: seq<byte>, w1: seq<byte>, w2: seq<byte>,
                    head: seq<byte>, tail: seq<byte>)
    requires head == Signature + ([SP] + (family + ([SP] + (x + [SP]))))
    requires tail == y + ([SP] + (w1 + ([SP] + (w2 + CRLF))))
    ensures head + tail == Line(family, Fields(x, y, w1, w2))
  {
    FieldsCrlf(x, y, w1, w2);
    assert head + tail == Signature + ([SP] + (family + ([SP] + (x + ([SP] + tail)))));
  }

  /** A TCP line given token by token decodes to the header of those tokens and is
      consumed whole. */
  lemma {:induction false} TcpLineOf(family: seq<byte>, a: IPv4.IP, b: IPv4.IP, p1: nat, p2: nat)
    requires family == Tcp4 || family == Tcp6
    requires p1 <= 65535 && p2 <= 65535
    ensures var s := Line(family, Fields(IPv4.Format(a), IPv4.Format(b), DecimalDigits(p1), DecimalDigits(p2)));
      Decode(s) == Step(Header(ProtocolVersion1, family, TCPAddr(Some(a), p1), TCPAddr(Some(b), p2)), Pass, |s|)
  {
    var x, y := IPv4.Format(a), IPv4.Format(b);
    var w1, w2 := DecimalDigits(p1), DecimalDigits(p2);
    var s := Line(family, Fields(x, y, w1, w2));
    IPv4.ParseFormat(a);
    IPv4.ParseFormat(b);
    FieldsCrlf(x, y, w1, w2);
    var rest := x + ([SP] + (y + ([SP] + (w1 + ([SP] + (w2 + (CRLF + [])))))));
    assert CRLF + [] == CRLF;
    assert s == Signature + ([SP] + (family + ([SP] + rest)));
    TcpLine(s, family, x, a, y, b, w1, w2, [], rest);
  }

  /** An UNKNOWN line whose discarded part is two addresses and two ports. */
  lemma {:induction false} UnknownLineOf(a: IPv4.IP, b: IPv4.IP, p1: nat, p2: nat)
    ensures var s := Line(Unknown, Fields(IPv4.Format(a), IPv4.Format(b), DecimalDigits(p1), DecimalDigits(p2)));
      Decode(s) == Step(UnknownHeader, Pass, |s|)
  {
    var junk := Fields(IPv4.Format(a), IPv4.Format(b), DecimalDigits(p1), DecimalDigits(p2));
    forall i | 0 <= i < |junk| ensures junk[i] != CR {
      assert IsDigit(junk[i]) || junk[i] == DOT || junk[i] == SP;
    }
    NoCrlfWithoutCr(junk);
    UnknownCarveOut(junk, []);
    assert CRLF + [] == CRLF;
  }

  // ---------------------------------------------------------------------------
  // "valid tcp4 header"

  lemma Tcp4LineSplit()
    ensures "PROXY TCP4 255.255.255.255 255.255.255.254 65535 65534\r\n"
         == "PROXY TCP4 255.255.255.255 " + "255.255.255.254 65535 65534\r\n"
  {
  }

  lemma Tcp4LineHead()
    ensures Ascii("PROXY TCP4 255.255.255.255 ")
         == Signature + ([SP] + (Tcp4 + ([SP] + (Ascii("255.255.255.255") + [SP]))))
  {
    assert "PROXY TCP4 255.255.255.255 " == "PROXY " + ("TCP4 " + "255.255.255.255 ");
    AsciiAppend("PROXY ", "TCP4 " + "255.255.255.255 ");
    AsciiAppend("TCP4 ", "255.255.255.255 ");
    assert Ascii("TCP4 ") == Tcp4 + [SP];
    HeadParts(Tcp4);
  }

  /** "PROXY ", then a token and a space, then another token and a space. */
  lemma HeadParts(family: seq<byte>)
    ensures Ascii("PROXY ") + ((family + [SP]) + Ascii("255.255.255.255 "))
         == Signature + ([SP] + (family + ([SP] + (Ascii("255.255.255.255") + [SP]))))
  {
    assert Ascii("PROXY ") == Signature + [SP];
    assert "255.255.255.255 " == "255.255.255.255" + " ";
    AsciiAppend("255.255.255.255", " ");
  }

  lemma AddressPortsTail()
    ensures Ascii("255.255.255.254 65535 65534\r\n")
         == Ascii("255.255.255.254") + ([SP] + (Ascii("65535") + ([SP] + (Ascii("65534") + CRLF))))
  {
  }

  /** The bytes of the test line, token by token. */
  function Tokens255(): seq<byte> {
    Fields(Ascii("255.255.255.255"), Ascii("255.255.255.254"), Ascii("65535"), Ascii("65534"))
  }

  lemma Tcp4LineBytes()
    ensures Ascii("PROXY TCP4 255.255.255.255 255.255.255.254 65535 65534\r\n") == Line(Tcp4, Tokens255())
  {
    Tcp4LineSplit();
    AsciiAppend("PROXY TCP4 255.255.255.255 ", "255.255.255.254 65535 65534\r\n");
    Tcp4LineHead();
    AddressPortsTail();
    LineOfParts(Tcp4, Ascii("255.255.255.255"), Ascii("255.255.255.254"), Ascii("65535"), Ascii("65534"),
                Ascii("PROXY TCP4 255.255.255.255 "), Ascii("255.255.255.254 65535 65534\r\n"));
  }

  /** The tokens are the printed forms of the test's addresses and ports. */
  lemma Tokens255Printed()
    ensures Tokens255() == Fields(IPv4.Format(IPv4.IP(255, 255, 255, 255)), IPv4.Format(IPv4.IP(255, 255, 255, 254)),
                                  DecimalDigits(65535), DecimalDigits(65534))
  {
    Address255();
    Address254();
    Port65535();
    Port65534();
  }

  /** "valid tcp4 header": version 1, TCP4, both addresses and both ports, and the
      whole line of 56 bytes is consumed. */
  lemma {:induction false} ValidTcp4Header()
    ensures Decode(Ascii("PROXY TCP4 255.255.255.255 255.255.255.254 65535 65534\r\n"))
         == Step(Header(ProtocolVersion1, Tcp4, Addr(255, 255, 255, 255, 65535), Addr(255, 255, 255, 254, 65534)),
                 Pass, 56)
  {
    Tcp4LineBytes();
    Tokens255Printed();
    TcpLineOf(Tcp4, IPv4.IP(255, 255, 255, 255), IPv4.IP(255, 255, 255, 254), 65535, 65534);
  }

  // ---------------------------------------------------------------------------
  // "valid unknown protocol header"

  lemma UnknownLineSplit()
    ensures "PROXY UNKNOWN 255.255.255.255 255.255.255.254 65535 65534\r\n"
         == "PROXY UNKNOWN 255.255.255.255 " + "255.255.255.254 65535 65534\r\n"
  {
  }

  lemma UnknownLineHead()
    ensures Ascii("PROXY UNKNOWN 255.255.255.255 ")
         == Signature + ([SP] + (Unknown + ([SP] + (Ascii("255.255.255.255") + [SP]))))
  {
    assert "PROXY UNKNOWN 255.255.255.255 " == "PROXY " + ("UNKNOWN " + "255.255.255.255 ");
    AsciiAppend("PROXY ", "UNKNOWN " + "255.255.255.255 ");
    AsciiAppend("UNKNOWN ", "255.255.255.255 ");
    assert Ascii("UNKNOWN ") == Unknown + [SP];
    HeadParts(Unknown);
  }

  lemma UnknownLineBytes()
    ensures Ascii("PROXY UNKNOWN 255.255.255.255 255.255.255.254 65535 65534\r\n") == Line(Unknown, Tokens255())
  {
    UnknownLineSplit();
    AsciiAppend("PROXY UNKNOWN 255.255.255.255 ", "255.255.255.254 65535 65534\r\n");
    UnknownLineHead();
    AddressPortsTail();
    LineOfParts(Unknown, Ascii("255.255.255.255"), Ascii("255.255.255.254"), Ascii("65535"), Ascii("65534"),
                Ascii("PROXY UNKNOWN 255.255.255.255 "), Ascii("255.255.255.254 65535 65534\r\n"));
  }

  /** "valid unknown protocol header": the addresses and ports after UNKNOWN are
      discarded, the header has zero addresses, and the whole line of 59 bytes is
      consumed. */
  lemma {:induction false} ValidUnknownHeader()
    ensures Decode(Ascii("PROXY UNKNOWN 255.255.255.255 255.255.255.254 65535 65534\r\n"))
         == Step(Header(ProtocolVersion1, Unknown, TCPAddr(None, 0), TCPAddr(None, 0)), Pass, 59)
  {
    UnknownLineBytes();
    Tokens255Printed();
    UnknownLineOf(IPv4.IP(255, 255, 255, 255), IPv4.IP(255, 255, 255, 254), 65535, 65534);
  }

  // ---------------------------------------------------------------------------
  // "empty proxy protocol header" and "invalid signature"

  lemma NotProxySplit()
    ensures "ANYTHING_THATS_NOT_PROXY TCP4 255.255.255.255 255.255.255.254 65535 65534\r\n"
         == "ANYTHING_THATS_NOT_PROXY TCP4 255.255.255.255 " + "255.255.255.254 65535 65534\r\n"
  {
  }

  lemma NotProxyHead()
    ensures "ANYTHING_THATS_NOT_PROXY TCP4 255.255.255.255 " == "ANYTHING_THATS_NOT_PROXY " + "TCP4 255.255.255.255 "
  {
  }

  lemma NotProxyFirst()
    ensures Ascii("ANYTHING_THATS_NOT_PROXY ")[0] == 0x41
  {
  }

  /** "empty proxy protocol header": InvalidHeader with the zero header, and nothing
      consumed. */
  lemma {:induction false} EmptyHeader()
    ensures Decode(Ascii("")) == Step(ZeroHeader, Fail(InvalidHeader), 0)
  {
    SignatureRequired(Ascii(""));
  }

  /** "invalid signature": an input that does not start with PROXY fails with
      InvalidHeader and the zero header, and nothing is consumed. */
  lemma {:induction false} InvalidSignature()
    ensures Decode(Ascii("ANYTHING_THATS_NOT_PROXY TCP4 255.255.255.255 255.255.255.254 65535 65534\r\n"))
         == Step(ZeroHeader, Fail(InvalidHeader), 0)
  {
    NotProxySplit();
    NotProxyHead();
    var t1, t2, t3 := "ANYTHING_THATS_NOT_PROXY ", "TCP4 255.255.255.255 ", "255.255.255.254 65535 65534\r\n";
    AsciiAppend(t1, t2);
    AsciiAppend(t1 + t2, t3);
    NotProxyFirst();
    var s := Ascii(t1 + t2 + t3);
    assert s[0] == Ascii(t1)[0];
    assert s[..5][0] == s[0] != Signature[0];
    SignatureRequired(s);
  }

  // ---------------------------------------------------------------------------
  // TestWriteHeader

  lemma WriteLineSplit()
    ensures "PROXY TCP6 127.0.0.1 127.0.0.2 8080 8081\r\n" == "PROXY TCP6 127.0.0.1 " + "127.0.0.2 8080 8081\r\n"
  {
  }

  lemma WriteLineHead()
    ensures Ascii("PROXY TCP6 127.0.0.1 ") == Signature + ([SP] + (Tcp6 + ([SP] + (Ascii("127.0.0.1") + [SP]))))
  {
  }

  lemma WriteLineTail()
    ensures Ascii("127.0.0.2 8080 8081\r\n") == Ascii("127.0.0.2") + ([SP] + (Ascii("8080") + ([SP] + (Ascii("8081") + CRLF))))
  {
  }

  lemma WriteLineBytes()
    ensures Ascii("PROXY TCP6 127.0.0.1 127.0.0.2 8080 8081\r\n")
         == Line(Tcp6, Fields(Ascii("127.0.0.1"), Ascii("127.0.0.2"), Ascii("8080"), Ascii("8081")))
  {
    WriteLineSplit();
    AsciiAppend("PROXY TCP6 127.0.0.1 ", "127.0.0.2 8080 8081\r\n");
    WriteLineHead();
    WriteLineTail();
    LineOfParts(Tcp6, Ascii("127.0.0.1"), Ascii("127.0.0.2"), Ascii("8080"), Ascii("8081"),
                Ascii("PROXY TCP6 127.0.0.1 "), Ascii("127.0.0.2 8080 8081\r\n"));
  }

  /** "valid protocol version 1 header": a TCP6 header with IPv4 addresses is written
      as given, without a family check. */
  lemma {:induction false} WriteVersion1()
    ensures WriteHeader(Header(ProtocolVersion1, Tcp6, Addr(127, 0, 0, 1, 8080), Addr(127, 0, 0, 2, 8081)))
         == Written(Ascii("PROXY TCP6 127.0.0.1 127.0.0.2 8080 8081\r\n"), Pass)
  {
    Loopback1();
    Loopback2();
    Port8080();
    Port8081();
    WriteLineBytes();
    FieldsCrlf(Ascii("127.0.0.1"), Ascii("127.0.0.2"), Ascii("8080"), Ascii("8081"));
  }

  /** "invalid protocol version, returns error": version 3 is rejected with
      InvalidHeader and nothing is written. */
  lemma {:induction false} WriteVersion3()
    ensures WriteHeader(Header(3, Tcp6, Addr(127, 0, 0, 1, 8080), Addr(127, 0, 0, 2, 8081)))
         == Written([], Fail(InvalidHeader))
  {
  }
}
