/** What the decoder and the encoder promise, proved about the Decode grammar and the
    WriteHeader format. Each decoder stage (DecodeUnknown, DecodeAddresses,
    DecodePorts) gets its own lemma, and the lemmas about Decode put them together. */
module HeaderProperties {

  import opened Errors
  import opened Bytes
  import IPv4
  import opened Cursor
  import opened ProxyProtocol

  // ---------------------------------------------------------------------------
  // The shape of every result

  /** What any successful decode guarantees: version 1, a known family, ports in
      range, the header ending right after a "\r\n", and for UNKNOWN zero addresses. */
  predicate SuccessShape(s: seq<byte>, r: Step<Header>) {
    r.pos <= |s| && 5 < r.pos && s[..5] == Signature && OccursAt(s, r.pos - 2, CRLF)
    && r.value.version == ProtocolVersion1
    && IsValidInetProtocolAndFamily(r.value.inetFamily)
    && 0 <= r.value.src.port <= 65535 && 0 <= r.value.dest.port <= 65535
    && (r.value.inetFamily == Unknown ==> r.value == UnknownHeader)
    && (r.value.inetFamily != Unknown ==> r.value.src.ip.Some? && r.value.dest.ip.Some?)
  }

  /** What a successful stage from p on guarantees about its result. */
  predicate StageShape(s: seq<byte>, family: seq<byte>, p: nat, r: Step<Header>) {
    p + 2 <= r.pos <= |s| && OccursAt(s, r.pos - 2, CRLF)
    && r.value.version == ProtocolVersion1 && r.value.inetFamily == family
    && r.value.src.ip.Some? && r.value.dest.ip.Some?
    && 0 <= r.value.src.port <= 65535 && 0 <= r.value.dest.port <= 65535
  }

  lemma {:induction false} DecodeDestPortShape(s: seq<byte>, family: seq<byte>, a: IPv4.IP, b: IPv4.IP, v: uint16, p: nat)
    requires p <= |s|
    ensures var r := DecodeDestPort(s, family, a, b, v, p);
      p <= r.pos <= |s| && (r.err != Pass ==> r.value == ZeroHeader)
    ensures var r := DecodeDestPort(s, family, a, b, v, p);
      r.err == Pass ==> StageShape(s, family, p, r) && r.value.src.ip == Some(a) && r.value.dest.ip == Some(b)
  {
  }

  lemma {:induction false} DecodePortsShape(s: seq<byte>, family: seq<byte>, a: IPv4.IP, b: IPv4.IP, p: nat)
    requires p <= |s|
    ensures var r := DecodePorts(s, family, a, b, p);
      p <= r.pos <= |s| && (r.err != Pass ==> r.value == ZeroHeader)
    ensures var r := DecodePorts(s, family, a, b, p);
      r.err == Pass ==> StageShape(s, family, p, r) && r.value.src.ip == Some(a) && r.value.dest.ip == Some(b)
  {
    var srcPort := ReadUint16(s, p);
    if srcPort.err == Pass && ExpectByte(s, srcPort.pos, SP).err == Pass {
      DecodeDestPortShape(s, family, a, b, srcPort.value, srcPort.pos + 1);
    }
  }

  lemma {:induction false} DecodeDestAddressFailure(s: seq<byte>, family: seq<byte>, a: IPv4.IP, p: nat)
    requires p <= |s|
    ensures var r := DecodeDestAddress(s, family, a, p);
      p <= r.pos <= |s| && (r.err != Pass ==> r.value == ZeroHeader)
  {
  }

  lemma {:induction false} DecodeDestAddressSuccess(s: seq<byte>, family: seq<byte>, a: IPv4.IP, p: nat)
    requires p <= |s| && DecodeDestAddress(s, family, a, p).err == Pass
    ensures StageShape(s, family, p, DecodeDestAddress(s, family, a, p))
  {
    var dest := ReadUntilDelimiter(s, p, SP);
    var destIP := IPv4.Parse(dest.value);
    assert dest.err == Pass && destIP.Some?;
    DecodeDestAddressIs(s, family, p, a, dest.value, destIP.value, dest.pos, dest.pos + 1);
    DecodePortsShape(s, family, a, destIP.value, dest.pos + 1);
  }

  lemma {:induction false} DecodeAddressesFailure(s: seq<byte>, family: seq<byte>, p: nat)
    requires p <= |s|
    ensures var r := DecodeAddresses(s, family, p);
      p <= r.pos <= |s| && (r.err != Pass ==> r.value == ZeroHeader)
  {
    var src := ReadUntilDelimiter(s, p, SP);
    if src.err == Pass && IPv4.Parse(src.value).Some? {
      DecodeAddressesIs(s, family, p, src.value, IPv4.Parse(src.value).value, src.pos, src.pos + 1);
      DecodeDestAddressFailure(s, family, IPv4.Parse(src.value).value, src.pos + 1);
    }
  }

  lemma {:induction false} DecodeAddressesSuccess(s: seq<byte>, family: seq<byte>, p: nat)
    requires p <= |s| && DecodeAddresses(s, family, p).err == Pass
    ensures StageShape(s, family, p, DecodeAddresses(s, family, p))
  {
    var src := ReadUntilDelimiter(s, p, SP);
    var srcIP := IPv4.Parse(src.value);
    assert src.err == Pass && srcIP.Some?;
    var next := src.pos + 1;
    assert next <= |s| && DecodeAddresses(s, family, p) == DecodeDestAddress(s, family, srcIP.value, next) by {
      DecodeAddressesIs(s, family, p, src.value, srcIP.value, src.pos, next);
    }
    DecodeDestAddressSuccess(s, family, srcIP.value, next);
  }

  lemma {:induction false} DecodeAddressesShape(s: seq<byte>, family: seq<byte>, p: nat)
    requires p <= |s|
    ensures var r := DecodeAddresses(s, family, p);
      p <= r.pos <= |s| && (r.err != Pass ==> r.value == ZeroHeader)
    ensures var r := DecodeAddresses(s, family, p);
      r.err == Pass ==> StageShape(s, family, p, r)
  {
    DecodeAddressesFailure(s, family, p);
    if DecodeAddresses(s, family, p).err == Pass {
      DecodeAddressesSuccess(s, family, p);
    }
  }

  /** Every decode either fails with the zero header or succeeds with SuccessShape; it
      never consumes more than the input. */
  lemma {:induction false} DecodeShape(s: seq<byte>)
    ensures Decode(s).pos <= |s|
    ensures Decode(s).err != Pass ==> Decode(s).value == ZeroHeader
    ensures Decode(s).err == Pass ==> SuccessShape(s, Decode(s))
  {
    if Decode(s).err == Pass {
      var family, q := DecodedFamily(s);
      var r := Decode(s);
      if family == Unknown {
        assert r == DecodeUnknown(s, q);
      } else {
        assert r == DecodeAddresses(s, family, q + 1);
        assert StageShape(s, family, q + 1, r) by {
          DecodeAddressesShape(s, family, q + 1);
        }
      }
    }
  }

  // ---------------------------------------------------------------------------
  // Rejections

  /** Input whose first five bytes are not "PROXY" (the empty input included) fails
      with InvalidHeader and consumes nothing. */
  lemma {:induction false} SignatureRequired(s: seq<byte>)
    requires |s| < 5 || s[..5] != Signature
    ensures Decode(s) == Step(ZeroHeader, Fail(InvalidHeader), 0)
  {
  }

  /** A family token other than TCP4, TCP6 and UNKNOWN fails with InvalidHeader, right
      after the token. */
  lemma {:induction false} FamilyMustBeKnown(s: seq<byte>)
    requires |s| >= 6 && s[..6] == Signature + [SP]
    requires ReadUntilDelimiter(s, 6, SP).err == Pass
    requires !IsValidInetProtocolAndFamily(ReadUntilDelimiter(s, 6, SP).value)
    ensures Decode(s) == Step(ZeroHeader, Fail(InvalidHeader), ReadUntilDelimiter(s, 6, SP).pos)
  {
    assert s[..5] == Signature && s[5] == SP by {
      assert s[..5] == s[..6][..5];
      assert s[5] == s[..6][5];
    }
  }

  /** "PROXY UNKNOWN\r\n" without a space after the token is not accepted: the family
      token runs on to the next space, and with none left the read ends in Eof. */
  lemma {:induction false} UnknownNeedsTrailingSpace(rest: seq<byte>)
    requires SP !in rest
    ensures var s := Signature + [SP] + Unknown + CRLF + rest;
      Decode(s) == Step(ZeroHeader, Fail(Eof), |s|)
  {
    var s := Signature + [SP] + Unknown + CRLF + rest;
    assert s[..5] == Signature;
    assert s[5] == SP;
    forall k | 6 <= k < |s| ensures s[k] != SP {
      if k >= 6 + |Unknown| + 2 {
        assert s[k] == rest[k - 15];
      }
    }
  }

  // ---------------------------------------------------------------------------
  // The UNKNOWN carve-out

  /** "PROXY UNKNOWN " followed by any bytes without "\r\n", then "\r\n": the result is
      version 1, UNKNOWN and zero addresses whatever those bytes were, and the reader
      stops right after the "\r\n", so none of the payload is consumed. */
  lemma {:induction false} UnknownCarveOut(junk: seq<byte>, payload: seq<byte>)
    requires NoCrlf(junk)
    ensures var s := Signature + ([SP] + (Unknown + ([SP] + (junk + (CRLF + payload)))));
      Decode(s) == Step(UnknownHeader, Pass, 14 + |junk| + 2)
  {
    var s := Signature + ([SP] + (Unknown + ([SP] + (junk + (CRLF + payload)))));
    assert s[..5] == Signature;
    ExpectByteAt(s, 5, SP, Unknown + ([SP] + (junk + (CRLF + payload))));
    ReadUntilDelimiterAt(s, 6, Unknown, SP, junk + (CRLF + payload));
    var w := [SP] + junk;
    assert s[13..] == w + (CRLF + payload);
    forall i | 0 <= i < |w| ensures !OccursAt(w, i, CRLF) {
      if i == 0 {
        assert w[0] == SP;
      } else if i + 2 <= |w| {
        assert w[i..i + 2] == junk[i - 1..i + 1];
        assert !OccursAt(junk, i - 1, CRLF);
      }
    }
    ReadUntilCrlfAt(s, 13, w, payload);
  }

  /** "PROXY UNKNOWN " followed by bytes without "\r\n": the skip to the line end runs
      out of input, which is reported as InvalidHeader with everything consumed. */
  lemma {:induction false} UnknownUnterminated(junk: seq<byte>)
    requires NoCrlf(junk)
    ensures var s := Signature + ([SP] + (Unknown + ([SP] + junk)));
      Decode(s) == Step(ZeroHeader, Fail(InvalidHeader), |s|)
  {
    var s := Signature + ([SP] + (Unknown + ([SP] + junk)));
    assert s[..5] == Signature;
    ExpectByteAt(s, 5, SP, Unknown + ([SP] + junk));
    ReadUntilDelimiterAt(s, 6, Unknown, SP, junk);
    forall i | 13 <= i <= |s| ensures !OccursAt(s, i, CRLF) {
      if i == 13 {
        assert s[13] == SP;
      } else if i + 2 <= |s| {
        assert s[i..i + 2] == junk[i - 14..i - 12];
        assert !OccursAt(junk, i - 14, CRLF);
      }
    }
  }

  // ---------------------------------------------------------------------------
  // Each stage's result from the results of its steps

  lemma {:induction false} DecodeTcpIs(s: seq<byte>, family: seq<byte>, q: nat, next: nat)
    requires |s| >= 5 && s[..5] == Signature && ExpectByte(s, 5, SP) == Step((), Pass, 6)
    requires ReadUntilDelimiter(s, 6, SP) == Step(family, Pass, q)
    requires family == Tcp4 || family == Tcp6
    requires next == q + 1
    ensures next <= |s|
    ensures Decode(s) == DecodeAddresses(s, family, next)
  {
    assert IsValidInetProtocolAndFamily(family) && family != Unknown by {
      assert |family| == 4;
    }
  }

  lemma {:induction false} DecodeAddressesIs(s: seq<byte>, family: seq<byte>, p: nat, x: seq<byte>, a: IPv4.IP,
                                            q: nat, next: nat)
    requires p <= |s|
    requires ReadUntilDelimiter(s, p, SP) == Step(x, Pass, q) && IPv4.Parse(x) == Some(a)
    requires next == q + 1
    ensures next <= |s|
    ensures DecodeAddresses(s, family, p) == DecodeDestAddress(s, family, a, next)
  {
    var src := ReadUntilDelimiter(s, p, SP);
    assert src.value == x && src.pos == q && IPv4.Parse(src.value).Some?;
  }

  lemma {:induction false} DecodeDestAddressIs(s: seq<byte>, family: seq<byte>, p: nat, a: IPv4.IP, y: seq<byte>, b: IPv4.IP,
                                              q: nat, next: nat)
    requires p <= |s|
    requires ReadUntilDelimiter(s, p, SP) == Step(y, Pass, q) && IPv4.Parse(y) == Some(b)
    requires next == q + 1
    ensures next <= |s|
    ensures DecodeDestAddress(s, family, a, p) == DecodePorts(s, family, a, b, next)
  {
  }

  lemma {:induction false} DecodePortsIs(s: seq<byte>, family: seq<byte>, a: IPv4.IP, b: IPv4.IP, p: nat, v: uint16, q: nat)
    requires p <= |s|
    requires ReadUint16(s, p) == Step(v, Pass, q)
    requires q <= |s| && ExpectByte(s, q, SP) == Step((), Pass, q + 1)
    ensures q + 1 <= |s|
    ensures DecodePorts(s, family, a, b, p) == DecodeDestPort(s, family, a, b, v, q + 1)
  {
  }

  lemma {:induction false} DecodeDestPortIs(s: seq<byte>, family: seq<byte>, a: IPv4.IP, b: IPv4.IP, v1: uint16, p: nat,
                         v2: uint16, q: nat)
    requires p <= |s|
    requires ReadUint16(s, p) == Step(v2, Pass, q)
    requires q <= |s| && ExpectCrlf(s, q) == Step((), Pass, q + 2)
    ensures DecodeDestPort(s, family, a, b, v1, p)
      == Step(Header(ProtocolVersion1, family, TCPAddr(Some(a), v1 as int), TCPAddr(Some(b), v2 as int)), Pass, q + 2)
  {
  }

  // ---------------------------------------------------------------------------
  // Round trip: decoding what WriteHeader writes gives the header back

  /** A header that WriteHeader can write and the decoder can read back. */
  predicate IsEncodableV1(h: Header) {
    h.version == ProtocolVersion1 && (h.inetFamily == Tcp4 || h.inetFamily == Tcp6)
    && h.src.ip.Some? && h.dest.ip.Some?
    && 0 <= h.src.port <= 65535 && 0 <= h.dest.port <= 65535
  }

  /** A port as written on the wire: a numeral of at most 65535. */
  predicate PortToken(w: seq<byte>) {
    |w| >= 1 && AllDigits(w) && DigitsValue(w) <= 65535
  }

  /** An address token and the space after it. */
  lemma {:induction false} TokenAt(s: seq<byte>, p: nat, x: seq<byte>, rest: seq<byte>)
    requires SP !in x
    requires p <= |s| && s[p..] == x + ([SP] + rest)
    ensures ReadUntilDelimiter(s, p, SP) == Step(x, Pass, p + |x|)
    ensures p + |x| + 1 <= |s| && s[p + |x| + 1..] == rest
  {
    ReadUntilDelimiterAt(s, p, x, SP, rest);
    assert s[p + |x| + 1..] == s[p + |x|..][1..];
  }

  /** The source port and the space after it. */
  lemma {:induction false} SrcPortAt(s: seq<byte>, p: nat, w: seq<byte>, rest: seq<byte>)
    requires PortToken(w)
    requires p <= |s| && s[p..] == w + ([SP] + rest)
    ensures ReadUint16(s, p) == Step(DigitsValue(w) as uint16, Pass, p + |w|)
    ensures ExpectByte(s, p + |w|, SP) == Step((), Pass, p + |w| + 1)
    ensures p + |w| + 1 <= |s| && s[p + |w| + 1..] == rest
  {
    ReadUint16At(s, p, w, [SP] + rest);
    var q := p + |w|;
    ExpectByteAt(s, q, SP, rest);
  }

  /** The header a TCP line of these tokens stands for. */
  function TcpHeader(family: seq<byte>, a: IPv4.IP, b: IPv4.IP, w1: seq<byte>, w2: seq<byte>): Header
    requires AllDigits(w1) && AllDigits(w2)
  {
    Header(ProtocolVersion1, family, TCPAddr(Some(a), DigitsValue(w1)), TCPAddr(Some(b), DigitsValue(w2)))
  }

  /** The ports stage from the results of its four reads. */
  lemma {:induction false} PortsChain(s: seq<byte>, family: seq<byte>, a: IPv4.IP, b: IPv4.IP, p: nat,
                                      v1: uint16, q1: nat, v2: uint16, q2: nat)
    requires p <= |s| && ReadUint16(s, p) == Step(v1, Pass, q1)
    requires q1 <= |s| && ExpectByte(s, q1, SP) == Step((), Pass, q1 + 1)
    requires q1 + 1 <= |s| && ReadUint16(s, q1 + 1) == Step(v2, Pass, q2)
    requires q2 <= |s| && ExpectCrlf(s, q2) == Step((), Pass, q2 + 2)
    ensures DecodePorts(s, family, a, b, p)
      == Step(Header(ProtocolVersion1, family, TCPAddr(Some(a), v1 as int), TCPAddr(Some(b), v2 as int)), Pass, q2 + 2)
  {
    DecodePortsIs(s, family, a, b, p, v1, q1);
    DecodeDestPortIs(s, family, a, b, v1, q1 + 1, v2, q2);
  }

  /** "w1 w2\r\n" followed by a payload: the ports stage reads both ports and the
      line end. */
  lemma {:induction false} PortsLine(s: seq<byte>, family: seq<byte>, a: IPv4.IP, b: IPv4.IP, p: nat,
                                     w1: seq<byte>, w2: seq<byte>, payload: seq<byte>)
    requires PortToken(w1) && PortToken(w2)
    requires p <= |s| && s[p..] == w1 + ([SP] + (w2 + (CRLF + payload)))
    ensures DecodePorts(s, family, a, b, p) == Step(TcpHeader(family, a, b, w1, w2), Pass, |s| - |payload|)
  {
    var q1 := p + |w1|;
    var p2 := q1 + 1;
    var q2 := p2 + |w2|;
    var v1, v2 := DigitsValue(w1) as uint16, DigitsValue(w2) as uint16;
    assert ReadUint16(s, p) == Step(v1, Pass, q1) && q1 <= |s| && ExpectByte(s, q1, SP) == Step((), Pass, p2)
        && p2 <= |s| && ReadUint16(s, p2) == Step(v2, Pass, q2)
        && q2 <= |s| && ExpectCrlf(s, q2) == Step((), Pass, q2 + 2) && q2 + 2 == |s| - |payload| by {
      SrcPortAt(s, p, w1, w2 + (CRLF + payload));
      ReadUint16At(s, p2, w2, CRLF + payload);
      ExpectCrlfAt(s, q2, payload);
    }
    PortsChain(s, family, a, b, p, v1, q1, v2, q2);
  }

  /** "y w1 w2\r\n" followed by a payload, where y parses as b. */
  lemma {:induction false} DestAddressLine(s: seq<byte>, family: seq<byte>, a: IPv4.IP, p: nat, y: seq<byte>, b: IPv4.IP,
                                           w1: seq<byte>, w2: seq<byte>, payload: seq<byte>)
    requires SP !in y && IPv4.Parse(y) == Some(b)
    requires PortToken(w1) && PortToken(w2)
    requires p <= |s| && s[p..] == y + ([SP] + (w1 + ([SP] + (w2 + (CRLF + payload)))))
    ensures DecodeDestAddress(s, family, a, p) == Step(TcpHeader(family, a, b, w1, w2), Pass, |s| - |payload|)
  {
    var q := p + |y|;
    var p2 := q + 1;
    assert p2 <= |s| && s[p2..] == w1 + ([SP] + (w2 + (CRLF + payload)))
        && DecodeDestAddress(s, family, a, p) == DecodePorts(s, family, a, b, p2) by {
      TokenAt(s, p, y, w1 + ([SP] + (w2 + (CRLF + payload))));
      DecodeDestAddressIs(s, family, p, a, y, b, q, p2);
    }
    PortsLine(s, family, a, b, p2, w1, w2, payload);
  }

  /** "x y w1 w2\r\n" followed by a payload, where x parses as a and y as b. */
  lemma {:induction false} AddressesLine(s: seq<byte>, family: seq<byte>, p: nat, x: seq<byte>, a: IPv4.IP,
                                         y: seq<byte>, b: IPv4.IP, w1: seq<byte>, w2: seq<byte>, payload: seq<byte>)
    requires SP !in x && IPv4.Parse(x) == Some(a) && SP !in y && IPv4.Parse(y) == Some(b)
    requires PortToken(w1) && PortToken(w2)
    requires p <= |s| && s[p..] == x + ([SP] + (y + ([SP] + (w1 + ([SP] + (w2 + (CRLF + payload)))))))
    ensures DecodeAddresses(s, family, p) == Step(TcpHeader(family, a, b, w1, w2), Pass, |s| - |payload|)
  {
    var q := p + |x|;
    var p2 := q + 1;
    assert p2 <= |s| && s[p2..] == y + ([SP] + (w1 + ([SP] + (w2 + (CRLF + payload)))))
        && DecodeAddresses(s, family, p) == DecodeDestAddress(s, family, a, p2) by {
      TokenAt(s, p, x, y + ([SP] + (w1 + ([SP] + (w2 + (CRLF + payload))))));
      DecodeAddressesIs(s, family, p, x, a, q, p2);
    }
    DestAddressLine(s, family, a, p2, y, b, w1, w2, payload);
  }

  /** A TCP line "PROXY family x y w1 w2\r\n" followed by a payload decodes to the
      header of those tokens and consumes exactly the line. */
  lemma {:induction false} TcpLine(s: seq<byte>, family: seq<byte>, x: seq<byte>, a: IPv4.IP, y: seq<byte>, b: IPv4.IP,
                                   w1: seq<byte>, w2: seq<byte>, payload: seq<byte>, rest: seq<byte>)
    requires family == Tcp4 || family == Tcp6
    requires SP !in x && IPv4.Parse(x) == Some(a) && SP !in y && IPv4.Parse(y) == Some(b)
    requires PortToken(w1) && PortToken(w2)
    requires rest == x + ([SP] + (y + ([SP] + (w1 + ([SP] + (w2 + (CRLF + payload)))))))
    requires s == Signature + ([SP] + (family + ([SP] + rest)))
    ensures Decode(s) == Step(TcpHeader(family, a, b, w1, w2), Pass, |s| - |payload|)
  {
    assert s[..5] == Signature;
    ExpectByteAt(s, 5, SP, family + ([SP] + rest));
    TokenAt(s, 6, family, rest);
    var q := 6 + |family|;
    var p2 := q + 1;
    DecodeTcpIs(s, family, q, p2);
    AddressesLine(s, family, p2, x, a, y, b, w1, w2, payload);
  }

  /** Decoding the bytes WriteHeader writes for a version 1 TCP4 or TCP6 header, with
      any payload after them, gives the header back and consumes exactly the header
      bytes. TCP6 with IPv4 literals is included: the family is not cross-checked. */
  lemma {:induction false} RoundTrip(h: Header, payload: seq<byte>)
    requires IsEncodableV1(h)
    ensures WriteHeader(h).err == Pass
    ensures Decode(WriteHeader(h).bytes + payload) == Step(h, Pass, |WriteHeader(h).bytes|)
  {
    var family, a, b := h.inetFamily, h.src.ip.value, h.dest.ip.value;
    var x, y := IPv4.Format(a), IPv4.Format(b);
    var w1, w2 := DecimalDigits(h.src.port), DecimalDigits(h.dest.port);
    WrittenLine(h);
    var rest := LinePlusPayload(family, x, y, w1, w2, payload);
    IPv4.ParseFormat(a);
    IPv4.ParseFormat(b);
    TcpLine(WriteHeader(h).bytes + payload, family, x, a, y, b, w1, w2, payload, rest);
  }

  /** The bytes WriteHeader writes for an encodable header, token by token. */
  lemma {:induction false} WrittenLine(h: Header)
    requires IsEncodableV1(h)
    ensures WriteHeader(h).err == Pass
    ensures WriteHeader(h).bytes == Signature + ([SP] + (h.inetFamily + ([SP] +
      (IPv4.Format(h.src.ip.value) + ([SP] + (IPv4.Format(h.dest.ip.value) + ([SP] +
      (DecimalDigits(h.src.port) + ([SP] + (DecimalDigits(h.dest.port) + CRLF))))))))))
  {
    assert IPString(h.src.ip) == IPv4.Format(h.src.ip.value);
    assert IPString(h.dest.ip) == IPv4.Format(h.dest.ip.value);
    assert FormatInt(h.src.port) == DecimalDigits(h.src.port);
    assert FormatInt(h.dest.port) == DecimalDigits(h.dest.port);
  }

  /** A written line followed by a payload, split after the family. */
  lemma {:induction false} LinePlusPayload(family: seq<byte>, x: seq<byte>, y: seq<byte>, w1: seq<byte>, w2: seq<byte>,
                                           payload: seq<byte>)
    returns (rest: seq<byte>)
    ensures rest == x + ([SP] + (y + ([SP] + (w1 + ([SP] + (w2 + (CRLF + payload)))))))
    ensures Signature + ([SP] + (family + ([SP] + (x + ([SP] + (y + ([SP] + (w1 + ([SP] + (w2 + CRLF))))))))))
      + payload == Signature + ([SP] + (family + ([SP] + rest)))
  {
    rest := x + ([SP] + (y + ([SP] + (w1 + ([SP] + (w2 + (CRLF + payload)))))));
  }

  // ---------------------------------------------------------------------------
  // What is accepted is a header line: the converse of TcpLine and UnknownCarveOut

  /** The four fields after the family: two addresses and two ports, space-separated. */
  function Fields(x: seq<byte>, y: seq<byte>, w1: seq<byte>, w2: seq<byte>): seq<byte> {
    x + ([SP] + (y + ([SP] + (w1 + ([SP] + w2)))))
  }

  /** A header line: "PROXY", the family and the fields, separated by spaces, then
      "\r\n". */
  function Line(family: seq<byte>, fields: seq<byte>): seq<byte> {
    Signature + ([SP] + (family + ([SP] + (fields + CRLF))))
  }

  lemma FieldsCrlf(x: seq<byte>, y: seq<byte>, w1: seq<byte>, w2: seq<byte>)
    ensures Fields(x, y, w1, w2) + CRLF == x + ([SP] + (y + ([SP] + (w1 + ([SP] + (w2 + CRLF))))))
  {
  }

  /** No "\r\n" starts anywhere in w. */
  predicate NoCrlf(w: seq<byte>) {
    forall i :: 0 <= i < |w| ==> !OccursAt(w, i, CRLF)
  }

  /** A slice made of a token, a space and the rest. */
  lemma {:induction false} SliceJoin(s: seq<byte>, i: nat, j: nat, k: nat, w: seq<byte>, t: seq<byte>)
    requires i <= j < k <= |s| && s[i..j] == w && s[j] == SP && s[j + 1..k] == t
    ensures s[i..k] == w + ([SP] + t)
  {
    assert s[i..k] == s[i..j] + s[j..k];
    assert s[j..k] == [s[j]] + s[j + 1..k];
  }

  /** A successful ports stage read two port numerals and the line end. */
  lemma {:induction false} PortsAccepted(s: seq<byte>, family: seq<byte>, a: IPv4.IP, b: IPv4.IP, p: nat)
    returns (w1: seq<byte>, w2: seq<byte>)
    requires p <= |s| && DecodePorts(s, family, a, b, p).err == Pass
    ensures PortToken(w1) && PortToken(w2)
    ensures DecodePorts(s, family, a, b, p).value == TcpHeader(family, a, b, w1, w2)
    ensures s[p..DecodePorts(s, family, a, b, p).pos] == w1 + ([SP] + (w2 + CRLF))
  {
    var port1 := ReadUint16(s, p);
    var q1 := port1.pos;
    assert port1.err == Pass && ExpectByte(s, q1, SP).err == Pass;
    assert q1 + 1 <= |s| && DecodePorts(s, family, a, b, p) == DecodeDestPort(s, family, a, b, port1.value, q1 + 1) by {
      DecodePortsIs(s, family, a, b, p, port1.value, q1);
    }
    var port2 := ReadUint16(s, q1 + 1);
    var q2 := port2.pos;
    assert port2.err == Pass && ExpectCrlf(s, q2).err == Pass;
    DecodeDestPortIs(s, family, a, b, port1.value, q1 + 1, port2.value, q2);
    w1, w2 := s[p..q1], s[q1 + 1..q2];
    assert s[q2..q2 + 2] == CRLF;
    assert s[q1 + 1..q2 + 2] == w2 + CRLF;
    SliceJoin(s, p, q1, q2 + 2, w1, w2 + CRLF);
  }

  /** A successful destination stage read a printed address, then the ports. */
  lemma {:induction false} DestAddressAccepted(s: seq<byte>, family: seq<byte>, a: IPv4.IP, p: nat)
    returns (b: IPv4.IP, w1: seq<byte>, w2: seq<byte>)
    requires p <= |s| && DecodeDestAddress(s, family, a, p).err == Pass
    ensures PortToken(w1) && PortToken(w2)
    ensures DecodeDestAddress(s, family, a, p).value == TcpHeader(family, a, b, w1, w2)
    ensures s[p..DecodeDestAddress(s, family, a, p).pos] == IPv4.Format(b) + ([SP] + (w1 + ([SP] + (w2 + CRLF))))
  {
    var dest := ReadUntilDelimiter(s, p, SP);
    var destIP := IPv4.Parse(dest.value);
    assert dest.err == Pass && destIP.Some?;
    b := destIP.value;
    var next := dest.pos + 1;
    assert next <= |s| && DecodeDestAddress(s, family, a, p) == DecodePorts(s, family, a, b, next) by {
      DecodeDestAddressIs(s, family, p, a, dest.value, b, dest.pos, next);
    }
    w1, w2 := PortsAccepted(s, family, a, b, next);
    IPv4.FormatParse(dest.value);
    SliceJoin(s, p, dest.pos, DecodePorts(s, family, a, b, next).pos, IPv4.Format(b), w1 + ([SP] + (w2 + CRLF)));
  }

  /** A successful addresses stage read two printed addresses, then the ports. */
  lemma {:induction false} AddressesAccepted(s: seq<byte>, family: seq<byte>, p: nat)
    returns (a: IPv4.IP, b: IPv4.IP, w1: seq<byte>, w2: seq<byte>)
    requires p <= |s| && DecodeAddresses(s, family, p).err == Pass
    ensures PortToken(w1) && PortToken(w2)
    ensures DecodeAddresses(s, family, p).value == TcpHeader(family, a, b, w1, w2)
    ensures s[p..DecodeAddresses(s, family, p).pos] == Fields(IPv4.Format(a), IPv4.Format(b), w1, w2) + CRLF
  {
    var src := ReadUntilDelimiter(s, p, SP);
    var srcIP := IPv4.Parse(src.value);
    assert src.err == Pass && srcIP.Some?;
    a := srcIP.value;
    var next := src.pos + 1;
    assert next <= |s| && DecodeAddresses(s, family, p) == DecodeDestAddress(s, family, a, next) by {
      DecodeAddressesIs(s, family, p, src.value, a, src.pos, next);
    }
    b, w1, w2 := DestAddressAccepted(s, family, a, next);
    IPv4.FormatParse(src.value);
    var x, y := IPv4.Format(a), IPv4.Format(b);
    SliceJoin(s, p, src.pos, DecodeDestAddress(s, family, a, next).pos, x, y + ([SP] + (w1 + ([SP] + (w2 + CRLF)))));
    FieldsCrlf(x, y, w1, w2);
  }

  /** The TCP part of TcpAccepted, once "PROXY family " has been read. */
  lemma {:induction false} TcpLineAccepted(s: seq<byte>, family: seq<byte>, q: nat, r: Step<Header>)
    returns (w1: seq<byte>, w2: seq<byte>)
    requires 6 <= q < |s| && s[..5] == Signature && s[5] == SP && s[6..q] == family && s[q] == SP
    requires r == DecodeAddresses(s, family, q + 1) && r.err == Pass
    ensures r.value.src.ip.Some? && r.value.dest.ip.Some?
    ensures PortToken(w1) && PortToken(w2)
    ensures r.value == TcpHeader(family, r.value.src.ip.value, r.value.dest.ip.value, w1, w2)
    ensures s[..r.pos] == Line(family, Fields(IPv4.Format(r.value.src.ip.value), IPv4.Format(r.value.dest.ip.value), w1, w2))
  {
    var a, b;
    a, b, w1, w2 := AddressesAccepted(s, family, q + 1);
    LineSlice(s, family, q, r.pos, Fields(IPv4.Format(a), IPv4.Format(b), w1, w2));
  }

  /** "PROXY family " read up to q, then the fields and "\r\n" up to e: the first e
      bytes are that line. */
  lemma {:induction false} LineSlice(s: seq<byte>, family: seq<byte>, q: nat, e: nat, fields: seq<byte>)
    requires 6 <= q < e <= |s| && s[..5] == Signature && s[5] == SP && s[6..q] == family && s[q] == SP
    requires s[q + 1..e] == fields + CRLF
    ensures s[..e] == Line(family, fields)
  {
    SliceJoin(s, 6, q, e, family, fields + CRLF);
    assert s[0..5] == Signature;
    SliceJoin(s, 0, 5, e, Signature, family + ([SP] + (fields + CRLF)));
    assert s[..e] == s[0..e];
  }

  /** Everything the decoder accepts as TCP4 or TCP6 is a header line: "PROXY", the
      family, two printed IPv4 addresses and two port numerals of at most 65535 (leading
      zeros allowed) that denote the header's ports, then "\r\n", and nothing else was
      consumed. */
  lemma {:induction false} TcpAccepted(s: seq<byte>)
    requires Decode(s).err == Pass && Decode(s).value.inetFamily != Unknown
    ensures var h := Decode(s).value;
      (h.inetFamily == Tcp4 || h.inetFamily == Tcp6) && h.src.ip.Some? && h.dest.ip.Some?
      && exists w1, w2 :: PortToken(w1) && PortToken(w2)
           && h == TcpHeader(h.inetFamily, h.src.ip.value, h.dest.ip.value, w1, w2)
           && s[..Decode(s).pos] == Line(h.inetFamily, Fields(IPv4.Format(h.src.ip.value), IPv4.Format(h.dest.ip.value), w1, w2))
  {
    var r := Decode(s);
    var family, q := DecodedFamily(s);
    var w1, w2 := TcpLineAccepted(s, family, q, r);
    var h := r.value;
    assert PortToken(w1) && PortToken(w2)
      && h == TcpHeader(h.inetFamily, h.src.ip.value, h.dest.ip.value, w1, w2)
      && s[..r.pos] == Line(h.inetFamily, Fields(IPv4.Format(h.src.ip.value), IPv4.Format(h.dest.ip.value), w1, w2));
  }

  /** A successful decode read "PROXY", a space and a valid family token ending in a
      space, and went on with the stage of that family. */
  lemma {:induction false} DecodedFamily(s: seq<byte>) returns (family: seq<byte>, q: nat)
    requires Decode(s).err == Pass
    ensures |s| >= 6 && s[..5] == Signature && s[5] == SP
    ensures ReadUntilDelimiter(s, 6, SP) == Step(family, Pass, q)
    ensures IsValidInetProtocolAndFamily(family) && family == Decode(s).value.inetFamily
    ensures 6 <= q < |s| && s[6..q] == family && s[q] == SP
    ensures family == Unknown ==> Decode(s) == DecodeUnknown(s, q)
    ensures family != Unknown ==> Decode(s) == DecodeAddresses(s, family, q + 1)
  {
    assert |s| >= 5 && s[..5] == Signature;
    assert ExpectByte(s, 5, SP).err == Pass;
    var token := ReadUntilDelimiter(s, 6, SP);
    family, q := token.value, token.pos;
  }

  /** The UNKNOWN part of UnknownAccepted, once "PROXY UNKNOWN" has been read. */
  lemma {:induction false} UnknownLineAccepted(s: seq<byte>) returns (junk: seq<byte>)
    requires 13 < |s| && s[..5] == Signature && s[5] == SP && s[6..13] == Unknown && s[13] == SP
    requires DecodeUnknown(s, 13).err == Pass
    ensures NoCrlf(junk) && s[..DecodeUnknown(s, 13).pos] == Line(Unknown, junk)
  {
    var e := DecodeUnknown(s, 13).pos;
    assert 16 <= e <= |s| && s[e - 2..e] == CRLF && forall i :: 14 <= i < e - 2 ==> !OccursAt(s, i, CRLF) by {
      assert s[e - 2..e][0] == CRLF[0];
    }
    junk := UnknownLineUpTo(s, e);
  }

  /** "PROXY UNKNOWN ", bytes without "\r\n", and a "\r\n" that ends at e. */
  lemma {:induction false} UnknownLineUpTo(s: seq<byte>, e: nat) returns (junk: seq<byte>)
    requires 16 <= e <= |s| && s[..5] == Signature && s[5] == SP && s[6..13] == Unknown && s[13] == SP
    requires s[e - 2..e] == CRLF && forall i :: 14 <= i < e - 2 ==> !OccursAt(s, i, CRLF)
    ensures NoCrlf(junk) && s[..e] == Line(Unknown, junk)
  {
    junk := s[14..e - 2];
    SliceWithoutCrlf(s, 14, e - 2);
    UnknownLineSlice(s, e);
  }

  /** "PROXY UNKNOWN " and a "\r\n" that ends at e: the first e bytes are the UNKNOWN
      line around the bytes in between. */
  lemma {:induction false} UnknownLineSlice(s: seq<byte>, e: nat)
    requires 16 <= e <= |s| && s[..5] == Signature && s[5] == SP && s[6..13] == Unknown && s[13] == SP
    requires s[e - 2..e] == CRLF
    ensures s[..e] == Line(Unknown, s[14..e - 2])
  {
    var junk := s[14..e - 2];
    assert s[14..e] == junk + CRLF by {
      SliceSplit(s, 14, e - 2, e);
    }
    SliceJoin(s, 6, 13, e, Unknown, junk + CRLF);
    assert s[0..5] == Signature;
    SliceJoin(s, 0, 5, e, Signature, Unknown + ([SP] + (junk + CRLF)));
    assert s[..e] == s[0..e];
  }

  lemma {:induction false} SliceSplit(s: seq<byte>, i: nat, j: nat, k: nat)
    requires i <= j <= k <= |s|
    ensures s[i..k] == s[i..j] + s[j..k]
  {
    assert forall n :: i <= n < k ==> s[n] == s[i..k][n - i];
  }

  /** A stretch of s with no "\r\n" starting in it holds no "\r\n" of its own. */
  lemma {:induction false} SliceWithoutCrlf(s: seq<byte>, p: nat, e: nat)
    requires p <= e <= |s| && forall i :: p <= i < e ==> !OccursAt(s, i, CRLF)
    ensures NoCrlf(s[p..e])
  {
    forall i | 0 <= i < e - p ensures !OccursAt(s[p..e], i, CRLF) {
      OccursInSlice(s, p, e, i);
    }
  }

  /** A "\r\n" in a slice of s is one in s. */
  lemma {:induction false} OccursInSlice(s: seq<byte>, p: nat, e: nat, i: nat)
    requires p <= e <= |s|
    ensures OccursAt(s[p..e], i, CRLF) ==> OccursAt(s, p + i, CRLF)
  {
    var t := s[p..e];
    if OccursAt(t, i, CRLF) {
      assert t[i] == t[i..i + 2][0] == CR && t[i + 1] == t[i..i + 2][1] == LF;
      assert s[p + i..p + i + 2] == [s[p + i], s[p + i + 1]] == CRLF;
    }
  }

  /** Everything the decoder accepts as UNKNOWN is "PROXY UNKNOWN ", then bytes without
      "\r\n", then "\r\n", and nothing else was consumed. */
  lemma {:induction false} UnknownAccepted(s: seq<byte>)
    requires Decode(s).err == Pass && Decode(s).value.inetFamily == Unknown
    ensures Decode(s).value == UnknownHeader
    ensures exists junk :: NoCrlf(junk) && s[..Decode(s).pos] == Line(Unknown, junk)
  {
    var family, q := DecodedFamily(s);
    assert q == 13;
    var junk := UnknownLineAccepted(s);
  }

  // ---------------------------------------------------------------------------
  // Locality: the decoder reads nothing after the header

  lemma {:induction false} DecodeDestPortLocal(s: seq<byte>, s2: seq<byte>, family: seq<byte>, a: IPv4.IP, b: IPv4.IP,
                            v: uint16, p: nat)
    requires p <= |s| && DecodeDestPort(s, family, a, b, v, p).err == Pass
    requires Agree(s, s2, DecodeDestPort(s, family, a, b, v, p).pos)
    ensures DecodeDestPort(s2, family, a, b, v, p) == DecodeDestPort(s, family, a, b, v, p)
  {
    var destPort := ReadUint16(s, p);
    ReadUint16Local(s, s2, p);
    ExpectCrlfLocal(s, s2, destPort.pos);
  }

  lemma {:induction false} DecodePortsLocal(s: seq<byte>, s2: seq<byte>, family: seq<byte>, a: IPv4.IP, b: IPv4.IP, p: nat)
    requires p <= |s| && DecodePorts(s, family, a, b, p).err == Pass
    requires Agree(s, s2, DecodePorts(s, family, a, b, p).pos)
    ensures DecodePorts(s2, family, a, b, p) == DecodePorts(s, family, a, b, p)
  {
    var srcPort := ReadUint16(s, p);
    assert srcPort.err == Pass && ExpectByte(s, srcPort.pos, SP).err == Pass;
    var q := srcPort.pos + 1;
    DecodePortsIs(s, family, a, b, p, srcPort.value, srcPort.pos);
    DecodeDestPortShape(s, family, a, b, srcPort.value, q);
    ReadUint16Local(s, s2, p);
    ExpectByteLocal(s, s2, srcPort.pos, SP);
    DecodePortsIs(s2, family, a, b, p, srcPort.value, srcPort.pos);
    DecodeDestPortLocal(s, s2, family, a, b, srcPort.value, q);
  }

  lemma {:induction false} DecodeDestAddressLocal(s: seq<byte>, s2: seq<byte>, family: seq<byte>, a: IPv4.IP, p: nat)
    requires p <= |s| && DecodeDestAddress(s, family, a, p).err == Pass
    requires Agree(s, s2, DecodeDestAddress(s, family, a, p).pos)
    ensures DecodeDestAddress(s2, family, a, p) == DecodeDestAddress(s, family, a, p)
  {
    var dest := ReadUntilDelimiter(s, p, SP);
    var destIP := IPv4.Parse(dest.value);
    assert dest.err == Pass && destIP.Some?;
    DecodeDestAddressIs(s, family, p, a, dest.value, destIP.value, dest.pos, dest.pos + 1);
    DecodePortsShape(s, family, a, destIP.value, dest.pos + 1);
    ReadUntilDelimiterLocal(s, s2, p, SP);
    DecodeDestAddressIs(s2, family, p, a, dest.value, destIP.value, dest.pos, dest.pos + 1);
    DecodePortsLocal(s, s2, family, a, destIP.value, dest.pos + 1);
  }

  lemma {:induction false} DecodeAddressesLocal(s: seq<byte>, s2: seq<byte>, family: seq<byte>, p: nat)
    requires p <= |s| && DecodeAddresses(s, family, p).err == Pass
    requires Agree(s, s2, DecodeAddresses(s, family, p).pos)
    ensures DecodeAddresses(s2, family, p) == DecodeAddresses(s, family, p)
  {
    var src := ReadUntilDelimiter(s, p, SP);
    var srcIP := IPv4.Parse(src.value);
    assert src.err == Pass && srcIP.Some?;
    var next := src.pos + 1;
    assert next <= |s| && DecodeAddresses(s, family, p) == DecodeDestAddress(s, family, srcIP.value, next) by {
      DecodeAddressesIs(s, family, p, src.value, srcIP.value, src.pos, next);
    }
    assert next <= |s2| && DecodeAddresses(s2, family, p) == DecodeDestAddress(s2, family, srcIP.value, next) by {
      ReadUntilDelimiterLocal(s, s2, p, SP);
      DecodeAddressesIs(s2, family, p, src.value, srcIP.value, src.pos, next);
    }
    DecodeDestAddressLocal(s, s2, family, srcIP.value, next);
  }

  /** The UNKNOWN branch of DecodeLocal. */
  lemma {:induction false} DecodeLocalUnknown(s: seq<byte>, s2: seq<byte>, q: nat)
    requires |s| >= 5 && s[..5] == Signature && ExpectByte(s, 5, SP) == Step((), Pass, 6)
    requires ReadUntilDelimiter(s, 6, SP) == Step(Unknown, Pass, q)
    requires DecodeUnknown(s, q).err == Pass && Agree(s, s2, DecodeUnknown(s, q).pos)
    ensures Decode(s2) == Decode(s)
  {
    assert s2[..5] == s[..5];
    ExpectByteLocal(s, s2, 5, SP);
    ReadUntilDelimiterLocal(s, s2, 6, SP);
    ReadUntilCrlfLocal(s, s2, q);
  }

  /** The TCP4 and TCP6 branch of DecodeLocal. */
  lemma {:induction false} DecodeLocalTcp(s: seq<byte>, s2: seq<byte>, family: seq<byte>, q: nat, next: nat)
    requires |s| >= 5 && s[..5] == Signature && ExpectByte(s, 5, SP) == Step((), Pass, 6)
    requires ReadUntilDelimiter(s, 6, SP) == Step(family, Pass, q)
    requires family == Tcp4 || family == Tcp6
    requires next == q + 1 && next <= |s|
    requires DecodeAddresses(s, family, next).err == Pass && Agree(s, s2, DecodeAddresses(s, family, next).pos)
    ensures Decode(s2) == Decode(s)
  {
    assert next + 2 <= DecodeAddresses(s, family, next).pos by {
      DecodeAddressesShape(s, family, next);
    }
    assert s2[..5] == s[..5];
    ExpectByteLocal(s, s2, 5, SP);
    ReadUntilDelimiterLocal(s, s2, 6, SP);
    assert Decode(s) == DecodeAddresses(s, family, next) by {
      DecodeTcpIs(s, family, q, next);
    }
    assert Decode(s2) == DecodeAddresses(s2, family, next) by {
      DecodeTcpIs(s2, family, q, next);
    }
    DecodeAddressesLocal(s, s2, family, next);
  }

  /** A successful decode depends only on the bytes it consumed: any input that starts
      with those bytes decodes the same way. */
  lemma {:induction false} DecodeLocal(s: seq<byte>, s2: seq<byte>)
    requires Decode(s).err == Pass
    requires Agree(s, s2, Decode(s).pos)
    ensures Decode(s2) == Decode(s)
  {
    var family := ReadUntilDelimiter(s, 6, SP);
    var q := family.pos;
    if family.value == Unknown {
      DecodeLocalUnknown(s, s2, q);
    } else {
      var next := q + 1;
      DecodeLocalTcp(s, s2, family.value, q, next);
    }
  }

  /** On success the reader is left right after the terminating "\r\n": replacing
      everything after the consumed bytes by any payload changes nothing, so no
      payload byte is swallowed into the header. */
  lemma {:induction false} DecodeIgnoresPayload(s: seq<byte>, payload: seq<byte>)
    requires Decode(s).err == Pass
    ensures Decode(s[..Decode(s).pos] + payload) == Decode(s)
  {
    DecodeShape(s);
    DecodeLocal(s, s[..Decode(s).pos] + payload);
  }
}
