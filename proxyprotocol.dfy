/** The PROXY protocol version 1 header: its model, the encoder, the decoder grammar
    as a pure function, and the imperative decoder over the stream cursor, proved to
    compute that grammar. */
module ProxyProtocol {

  import opened Errors
  import opened Bytes
  import IPv4
  import Cursor
  import opened StreamParser

  const Signature: seq<byte> := [0x50, 0x52, 0x4F, 0x58, 0x59]    // "PROXY"
  const Tcp4: seq<byte> := [0x54, 0x43, 0x50, 0x34]               // "TCP4"
  const Tcp6: seq<byte> := [0x54, 0x43, 0x50, 0x36]               // "TCP6"
  const Unknown: seq<byte> := [0x55, 0x4E, 0x4B, 0x4E, 0x4F, 0x57, 0x4E]  // "UNKNOWN"
  const NilIP: seq<byte> := [0x3C, 0x6E, 0x69, 0x6C, 0x3E]        // "<nil>"

  const ProtocolVersion1: byte := 1
  const ProtocolVersion2: byte := 2

  /** net.TCPAddr: an address that may be nil, and a port. */
  datatype TCPAddr = TCPAddr(ip: Option<IPv4.IP>, port: int)

  /** The decoded header. The family is the token as it appeared on the wire. */
  datatype Header = Header(version: byte, inetFamily: seq<byte>, src: TCPAddr, dest: TCPAddr)

  const ZeroAddr: TCPAddr := TCPAddr(None, 0)

  /** Header{}: what the decoder returns beside an error. */
  const ZeroHeader: Header := Header(0, [], ZeroAddr, ZeroAddr)

  /** The header returned for the UNKNOWN family, whatever followed the token. */
  const UnknownHeader: Header := Header(ProtocolVersion1, Unknown, ZeroAddr, ZeroAddr)

  /** isValidProtocolVersion1InetProtocolAndFamily. A valid family is one token: it
      holds no space and no line end, so the space-delimited read gets it back whole. */
  predicate IsValidInetProtocolAndFamily(v: seq<byte>): (valid: bool)
    ensures valid ==> 4 <= |v| <= 7 && SP !in v && CR !in v && LF !in v
  {
    v == Tcp4 || v == Tcp6 || v == Unknown
  }

  // ---------------------------------------------------------------------------
  // Encoder

  /** net.IP.String(): "<nil>" for a nil address, else the dotted quad. What it prints
      parses back to the same address, and "<nil>" parses to nil. */
  function IPString(ip: Option<IPv4.IP>): (t: seq<byte>)
    ensures IPv4.Parse(t) == ip
  {
    match ip
    case None => NilIP
    case Some(a) => IPv4.ParseFormat(a); IPv4.Format(a)
  }

  /** "PROXY %s %s %s %d %d\r\n" applied to the family, the two addresses and the two
      ports. The line starts with "PROXY " and ends with "\r\n". */
  function V1Line(h: Header): (line: seq<byte>)
    ensures |line| >= 8 && line[..6] == Signature + [SP]
    ensures line[|line| - 2..] == CRLF
  {
    var family, src, dest := h.inetFamily, IPString(h.src.ip), IPString(h.dest.ip);
    var srcPort, destPort := FormatInt(h.src.port), FormatInt(h.dest.port);
    LineShape(family, src, dest, srcPort, destPort);
    Signature + ([SP] + (family + ([SP] + (src + ([SP] +
      (dest + ([SP] + (srcPort + ([SP] + (destPort + CRLF))))))))))
  }

  /** The same for any six space-separated tokens after "PROXY". */
  lemma {:induction false} LineShape(family: seq<byte>, src: seq<byte>, dest: seq<byte>, srcPort: seq<byte>, destPort: seq<byte>)
    ensures var line := Signature + ([SP] + (family + ([SP] + (src + ([SP] + (dest + ([SP] + (srcPort + ([SP] +
      (destPort + CRLF))))))))));
      |line| >= 8 && line[..6] == Signature + [SP] && line[|line| - 2..] == CRLF
  {
    var u0 := CRLF;
    var t0 := destPort + u0;
    EndsWithCrlf(destPort, u0);
    var u1 := [SP] + t0;
    EndsWithCrlf([SP], t0);
    var t1 := srcPort + u1;
    EndsWithCrlf(srcPort, u1);
    var u2 := [SP] + t1;
    EndsWithCrlf([SP], t1);
    var t2 := dest + u2;
    EndsWithCrlf(dest, u2);
    var u3 := [SP] + t2;
    EndsWithCrlf([SP], t2);
    var t3 := src + u3;
    EndsWithCrlf(src, u3);
    var u4 := [SP] + t3;
    EndsWithCrlf([SP], t3);
    var t4 := family + u4;
    EndsWithCrlf(family, u4);
    var u5 := [SP] + t4;
    EndsWithCrlf([SP], t4);
    var line := Signature + u5;
    EndsWithCrlf(Signature, u5);
    assert line[..6] == Signature + [SP];
  }

  lemma {:induction false} EndsWithCrlf(a: seq<byte>, b: seq<byte>)
    requires |b| >= 2 && b[|b| - 2..] == CRLF
    ensures (a + b)[|a + b| - 2..] == CRLF
  {
    assert (a + b)[|a + b| - 2..] == b[|b| - 2..];
  }

  /** What WriteHeader hands to the writer, and the error it returns. */
  datatype Written = Written(bytes: seq<byte>, err: Outcome)

  /** WriteHeader: version 1 is formatted; version 2 is the unimplemented branch (a
      panic in the source); every other version is rejected and nothing is written. */
  function WriteHeader(h: Header): (w: Written)
    ensures w.err == Pass <==> h.version == ProtocolVersion1
    ensures h.version == ProtocolVersion2 ==> w.err == Fail(Unimplemented)
    ensures h.version != ProtocolVersion1 && h.version != ProtocolVersion2 ==> w.err == Fail(InvalidHeader)
    ensures w.err != Pass ==> w.bytes == []
    ensures w.err == Pass ==> |w.bytes| >= 8 && w.bytes[..6] == Signature + [SP]
    ensures w.err == Pass ==> w.bytes[|w.bytes| - 2..] == CRLF
  {
    if h.version == ProtocolVersion1 then
      Written(V1Line(h), Pass)
    else if h.version == ProtocolVersion2 then Written([], Fail(Unimplemented))
    else Written([], Fail(InvalidHeader))
  }

  // ---------------------------------------------------------------------------
  // Decoder grammar

  function Failed(err: Outcome, pos: nat): Cursor.Step<Header> {
    Cursor.Step(ZeroHeader, err, pos)
  }

  /** ParseProtocolHeader as a function of the bytes the reader has yet to deliver: the
      header, the error, and how many bytes were consumed. It never reads past the
      input; an error comes with Header{}; nothing is consumed exactly when the input
      does not start with "PROXY", and that is InvalidHeader; a success is version 1
      with a known family. */
  function Decode(s: seq<byte>): (r: Cursor.Step<Header>)
    ensures r.pos <= |s|
    ensures r.err != Pass ==> r.value == ZeroHeader
    ensures r.pos == 0 <==> |s| < |Signature| || s[..|Signature|] != Signature
    ensures r.pos == 0 ==> r.err == Fail(InvalidHeader)
    ensures r.err == Pass ==> r.value.version == ProtocolVersion1 && IsValidInetProtocolAndFamily(r.value.inetFamily)
  {
    // isProtocolVersion1: a failed peek and a wrong signature are both InvalidHeader.
    if |s| < |Signature| || s[..|Signature|] != Signature then Failed(Fail(InvalidHeader), 0)
    else
      // readBytes(5) then consumes the signature the peek has seen.
      var sp1 := Cursor.ExpectByte(s, |Signature|, SP);
      if sp1.err != Pass then Failed(sp1.err, sp1.pos) else
      var family := Cursor.ReadUntilDelimiter(s, sp1.pos, SP);
      if family.err != Pass then Failed(family.err, family.pos) else
      if !IsValidInetProtocolAndFamily(family.value) then Failed(Fail(InvalidHeader), family.pos)
      else if family.value == Unknown then DecodeUnknown(s, family.pos)
      else DecodeAddresses(s, family.value, family.pos + 1)
  }

  /** The UNKNOWN family: everything through the first "\r\n" is discarded. A missing
      "\r\n" is reported as InvalidHeader, with the whole input consumed. */
  function DecodeUnknown(s: seq<byte>, p: nat): (r: Cursor.Step<Header>)
    requires p <= |s|
    ensures r.err == Pass ==> r.value == UnknownHeader && p + 2 <= r.pos <= |s| && Cursor.OccursAt(s, r.pos - 2, CRLF)
    ensures r.err == Pass ==> forall i :: p <= i < r.pos - 2 ==> !Cursor.OccursAt(s, i, CRLF)
    ensures r.err != Pass ==> r == Failed(Fail(InvalidHeader), |s|)
    ensures r.err != Pass <==> forall i :: p <= i <= |s| ==> !Cursor.OccursAt(s, i, CRLF)
  {
    var skip := Cursor.ReadUntilCrlf(s, p);
    if skip.err != Pass then Failed(Fail(InvalidHeader), skip.pos)
    else Cursor.Step(UnknownHeader, Pass, skip.pos)
  }

  /** TCP4 and TCP6, from the source address on. The space after the family and after
      each address is the delimiter that ended the token before it, so the source's
      expectByte(' ') that consumes it cannot fail; p is already past it. The family
      is not compared with the kind of the address literals. */
  function DecodeAddresses(s: seq<byte>, family: seq<byte>, p: nat): (r: Cursor.Step<Header>)
    requires p <= |s|
    ensures p <= r.pos <= |s|
    ensures r.err != Pass ==> r.value == ZeroHeader
    ensures r.err == Pass ==> r.value.version == ProtocolVersion1 && r.value.inetFamily == family
  {
    var srcAddress := Cursor.ReadUntilDelimiter(s, p, SP);
    if srcAddress.err != Pass then Failed(srcAddress.err, srcAddress.pos) else
    var srcIP := IPv4.Parse(srcAddress.value);
    if srcIP.None? then Failed(Fail(InvalidHeader), srcAddress.pos) else
    DecodeDestAddress(s, family, srcIP.value, srcAddress.pos + 1)
  }

  /** The destination address, then the ports. */
  function DecodeDestAddress(s: seq<byte>, family: seq<byte>, srcIP: IPv4.IP, p: nat): (r: Cursor.Step<Header>)
    requires p <= |s|
    ensures p <= r.pos <= |s|
    ensures r.err != Pass ==> r.value == ZeroHeader
    ensures r.err == Pass ==> r.value.version == ProtocolVersion1 && r.value.inetFamily == family
  {
    var destAddress := Cursor.ReadUntilDelimiter(s, p, SP);
    if destAddress.err != Pass then Failed(destAddress.err, destAddress.pos) else
    var destIP := IPv4.Parse(destAddress.value);
    if destIP.None? then Failed(Fail(InvalidHeader), destAddress.pos) else
    DecodePorts(s, family, srcIP, destIP.value, destAddress.pos + 1)
  }

  /** The source port and the space after it. */
  function DecodePorts(s: seq<byte>, family: seq<byte>, srcIP: IPv4.IP, destIP: IPv4.IP, p: nat): (r: Cursor.Step<Header>)
    requires p <= |s|
    ensures p <= r.pos <= |s|
    ensures r.err != Pass ==> r.value == ZeroHeader
    ensures r.err == Pass ==> r.value.version == ProtocolVersion1 && r.value.inetFamily == family
  {
    var srcPort := Cursor.ReadUint16(s, p);
    if srcPort.err != Pass then Failed(srcPort.err, srcPort.pos) else
    var sp := Cursor.ExpectByte(s, srcPort.pos, SP);
    if sp.err != Pass then Failed(sp.err, sp.pos) else
    DecodeDestPort(s, family, srcIP, destIP, srcPort.value, sp.pos)
  }

  /** The destination port and the closing "\r\n". */
  function DecodeDestPort(s: seq<byte>, family: seq<byte>, srcIP: IPv4.IP, destIP: IPv4.IP, srcPort: uint16,
                          p: nat): (r: Cursor.Step<Header>)
    requires p <= |s|
    ensures p <= r.pos <= |s|
    ensures r.err != Pass ==> r.value == ZeroHeader
    ensures r.err == Pass ==> r.value.version == ProtocolVersion1 && r.value.inetFamily == family
  {
    var destPort := Cursor.ReadUint16(s, p);
    if destPort.err != Pass then Failed(destPort.err, destPort.pos) else
    var crlf := Cursor.ExpectCrlf(s, destPort.pos);
    if crlf.err != Pass then Failed(crlf.err, crlf.pos) else
    Cursor.Step(Header(ProtocolVersion1, family,
                       TCPAddr(Some(srcIP), srcPort as int),
                       TCPAddr(Some(destIP), destPort.value as int)),
                Pass, crlf.pos)
  }

  // ---------------------------------------------------------------------------
  // Imperative decoder

  /** isProtocolVersion1: peek five bytes without consuming them. A reader with fewer
      than five bytes left fails with Eof. */
  method IsProtocolVersion1(reader: Parser) returns (isVersion1: bool, err: Outcome)
    requires reader.Valid()
    ensures err == Pass <==> reader.pos + |Signature| <= |reader.input|
    ensures err != Pass ==> err == Fail(Eof) && !isVersion1
    ensures err == Pass ==> (isVersion1 <==> reader.input[reader.pos..reader.pos + |Signature|] == Signature)
  {
    if reader.pos + |Signature| > |reader.input| {
      return false, Fail(Eof);
    }
    var buffer := reader.input[reader.pos..reader.pos + |Signature|];
    isVersion1, err := buffer == Signature, Pass;
  }

  /** ParseProtocolHeader over a reader whose pending bytes are `input`; `consumed` is
      how many of them it took. It computes Decode. */
  method ParseProtocolHeader(input: seq<byte>) returns (header: Header, err: Outcome, consumed: nat)
    ensures Cursor.Step(header, err, consumed) == Decode(input)
  {
    var parser := new Parser(input);
    var isVersion1, e := IsProtocolVersion1(parser);
    if e != Pass {
      return ZeroHeader, Fail(InvalidHeader), parser.pos;
    }
    if !isVersion1 {
      return ZeroHeader, Fail(InvalidHeader), parser.pos;
    }
    var signature, e0 := parser.ReadBytes(|Signature|);
    // The source re-checks both; neither can fail, as the peek saw the signature.
    assert e0 == Pass && signature == Signature;
    var e1 := parser.ExpectByte(SP);
    if e1 != Pass {
      return ZeroHeader, e1, parser.pos;
    }
    var family, e2 := parser.ReadUntilDelimiter(SP);
    if e2 != Pass {
      return ZeroHeader, e2, parser.pos;
    }
    if !IsValidInetProtocolAndFamily(family) {
      return ZeroHeader, Fail(InvalidHeader), parser.pos;
    }
    if family == Unknown {
      assert Decode(input) == DecodeUnknown(input, parser.pos);
      var _, e3 := parser.ReadUntilCRLF();
      if e3 != Pass {
        return ZeroHeader, Fail(InvalidHeader), parser.pos;
      }
      return Header(ProtocolVersion1, family, ZeroAddr, ZeroAddr), Pass, parser.pos;
    }
    var e4 := parser.ExpectByte(SP);
    // The source returns e4 here; the delimiter that ended the family is this space.
    assert e4 == Pass;
    assert Decode(input) == DecodeAddresses(input, family, parser.pos);
    header, err := ParseAddresses(parser, family);
    consumed := parser.pos;
  }

  /** The rest of ParseProtocolHeader for TCP4 and TCP6, from the source address on. */
  method ParseAddresses(parser: Parser, family: seq<byte>) returns (header: Header, err: Outcome)
    requires parser.Valid()
    modifies parser
    ensures parser.Valid()
    ensures Cursor.Step(header, err, parser.pos) == DecodeAddresses(parser.input, family, old(parser.pos))
  {
    ghost var tail := DecodeAddresses(parser.input, family, parser.pos);
    var srcAddress, e5 := parser.ReadUntilDelimiter(SP);
    if e5 != Pass {
      return ZeroHeader, e5;
    }
    var srcIP := IPv4.Parse(srcAddress);
    if srcIP.None? {
      return ZeroHeader, Fail(InvalidHeader);
    }
    var e6 := parser.ExpectByte(SP);
    // The source returns e6 here; the delimiter that ended the source address is this space.
    assert e6 == Pass;
    assert tail == DecodeDestAddress(parser.input, family, srcIP.value, parser.pos);
    header, err := ParseDestAddress(parser, family, srcIP);
  }

  /** The destination address and the space after it, then the ports. */
  method ParseDestAddress(parser: Parser, family: seq<byte>, srcIP: Option<IPv4.IP>) returns (header: Header, err: Outcome)
    requires parser.Valid() && srcIP.Some?
    modifies parser
    ensures parser.Valid()
    ensures Cursor.Step(header, err, parser.pos) == DecodeDestAddress(parser.input, family, srcIP.value, old(parser.pos))
  {
    ghost var tail := DecodeDestAddress(parser.input, family, srcIP.value, parser.pos);
    var destAddress, e7 := parser.ReadUntilDelimiter(SP);
    if e7 != Pass {
      return ZeroHeader, e7;
    }
    var destIP := IPv4.Parse(destAddress);
    if destIP.None? {
      return ZeroHeader, Fail(InvalidHeader);
    }
    var e8 := parser.ExpectByte(SP);
    // The source returns e8 here; the delimiter that ended the destination address is this space.
    assert e8 == Pass;
    assert tail == DecodePorts(parser.input, family, srcIP.value, destIP.value, parser.pos);
    header, err := ParsePorts(parser, family, srcIP, destIP);
  }

  /** The two ports and the closing "\r\n", after both addresses. */
  method ParsePorts(parser: Parser, family: seq<byte>, srcIP: Option<IPv4.IP>, destIP: Option<IPv4.IP>)
    returns (header: Header, err: Outcome)
    requires parser.Valid() && srcIP.Some? && destIP.Some?
    modifies parser
    ensures parser.Valid()
    ensures Cursor.Step(header, err, parser.pos)
      == DecodePorts(parser.input, family, srcIP.value, destIP.value, old(parser.pos))
  {
    ghost var tail := DecodePorts(parser.input, family, srcIP.value, destIP.value, parser.pos);
    var srcPort, e9 := parser.ReadUint16();
    if e9 != Pass {
      return ZeroHeader, e9;
    }
    var e10 := parser.ExpectByte(SP);
    if e10 != Pass {
      return ZeroHeader, e10;
    }
    assert tail == DecodeDestPort(parser.input, family, srcIP.value, destIP.value, srcPort, parser.pos);
    var destPort, e11 := parser.ReadUint16();
    if e11 != Pass {
      return ZeroHeader, e11;
    }
    var e12 := parser.ExpectCRLF();
    if e12 != Pass {
      return ZeroHeader, e12;
    }
    header := Header(ProtocolVersion1, family, TCPAddr(srcIP, srcPort as int), TCPAddr(destIP, destPort as int));
    err := Pass;
  }
}
